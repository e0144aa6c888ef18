/**
 * The obstacle slot table of the dino game: a fixed number of slots, each
 * either free or holding one cactus or bird that walks from the right edge of
 * the playfield toward column 0. This module gives the table's meaning as
 * pure functions over a sequence of slots; the class in module Game keeps the
 * four parallel arrays of the program and is proved against these functions.
 */
module Obstacles {

  /** OBSTACLE_MAX: capacity of the slot table. */
  const ObstacleMax: nat := 4
  /** PLAYFIELD_ROWS of the program: number of visible columns of the playfield. */
  const PlayfieldCols: nat := 16
  /** An obstacle enters at the far (right) edge, column 15. */
  const SpawnCol: int := PlayfieldCols - 1
  /** dino_col_position: the dino never leaves this column. */
  const DinoCol: int := 2

  /** Pattern codes, which are also the glyph slots of the display. */
  const CactusPattern: int := 1
  const BirdPattern: int := 2
  /** PATTERNS: the pattern code of kind 0 (cactus) and kind 1 (bird). */
  const Patterns: seq<int> := [CactusPattern, BirdPattern]

  /** One entry of obstacle_active / obstacle_col / obstacle_row / obstacle_pattern. */
  datatype Slot = Slot(active: bool, col: int, row: int, pattern: int)

  /** What obstacles_init writes into every slot. */
  const EmptySlot := Slot(false, 0, 0, 0)

  /** An active slot lies on the playfield and holds a cactus or a bird. */
  predicate SlotOk(o: Slot) {
    o.active ==>
      0 <= o.col < PlayfieldCols && 0 <= o.row <= 1 &&
      (o.pattern == CactusPattern || o.pattern == BirdPattern)
  }

  predicate TableOk(s: seq<Slot>) {
    |s| == ObstacleMax && forall i :: 0 <= i < |s| ==> SlotOk(s[i])
  }

  /** Slot `o` holds an active obstacle on cell (col, row). */
  predicate Occupies(o: Slot, col: int, row: int) {
    o.active && o.col == col && o.row == row
  }

  /** Some active slot stands on cell (col, row). */
  predicate Collides(s: seq<Slot>, col: int, row: int) {
    exists i :: 0 <= i < |s| && Occupies(s[i], col, row)
  }

  predicate AllActive(s: seq<Slot>) {
    forall i :: 0 <= i < |s| ==> s[i].active
  }

  /** The table after obstacles_init: every slot free and zeroed. */
  function Cleared(): (s: seq<Slot>)
    ensures TableOk(s)
    ensures |s| == ObstacleMax && forall i :: 0 <= i < |s| ==> s[i] == EmptySlot
  {
    [EmptySlot, EmptySlot, EmptySlot, EmptySlot]
  }

  /** rnd_gen(max): the free-running 8-bit timer count reduced modulo max. */
  function RndGen(tcnt: bv8, max: int): (r: int)
    requires max > 0
    ensures 0 <= r < max
  {
    (tcnt as int) % max
  }

  /**
   * The obstacle spawn_obstacle writes, given the random roll it draws: a bird
   * on the top row when the roll exceeds 50, otherwise a cactus on the bottom row.
   */
  function NewObstacle(roll: int): (o: Slot)
    ensures SlotOk(o) && o.active && o.col == SpawnCol
    ensures o.pattern == BirdPattern <==> o.row == 0
    ensures o.pattern == BirdPattern <==> roll > 50
  {
    if roll > 50 then Slot(true, SpawnCol, 0, BirdPattern)
    else Slot(true, SpawnCol, 1, CactusPattern)
  }

  /** Index of the lowest free slot, or |s| when every slot is active. */
  function FirstFree(s: seq<Slot>): (k: nat)
    ensures k <= |s|
    ensures forall i :: 0 <= i < k ==> s[i].active
    ensures k < |s| ==> !s[k].active
  {
    if s == [] || !s[0].active then 0 else 1 + FirstFree(s[1..])
  }

  /**
   * spawn_obstacle on the table `s`: the lowest-index free slot, and only that
   * one, receives a new obstacle; a full table is left as it is.
   */
  function Spawned(s: seq<Slot>, roll: int): (t: seq<Slot>)
    ensures |t| == |s|
    ensures forall i :: 0 <= i < |s| ==>
      t[i] == (if !s[i].active && (forall j :: 0 <= j < i ==> s[j].active)
               then NewObstacle(roll) else s[i])
    ensures AllActive(s) ==> t == s
    ensures TableOk(s) ==> TableOk(t)
  {
    var k := FirstFree(s);
    if k == |s| then s else s[k := NewObstacle(roll)]
  }

  /** One slot in one step of the advance loop. */
  function AdvanceSlot(o: Slot): Slot {
    if !o.active then o
    else if o.col == 0 then o.(active := false)
    else o.(col := o.col - 1)
  }

  /**
   * The advance loop: each active slot at column 0 is freed, every other active
   * slot moves one column toward 0, and free slots are left untouched.
   */
  function Advanced(s: seq<Slot>): (t: seq<Slot>)
    ensures |t| == |s|
    ensures forall i :: 0 <= i < |s| && !s[i].active ==> t[i] == s[i]
    ensures forall i :: 0 <= i < |s| && s[i].active ==>
      (t[i].active <==> s[i].col != 0) &&
      t[i].row == s[i].row && t[i].pattern == s[i].pattern
    ensures forall i :: 0 <= i < |s| && t[i].active ==> t[i].col == s[i].col - 1
    ensures forall i :: 0 <= i < |s| && s[i].active && s[i].col == 0 ==> t[i] == s[i].(active := false)
    ensures TableOk(s) ==> TableOk(t)
  {
    seq(|s|, i requires 0 <= i < |s| => AdvanceSlot(s[i]))
  }

  /** Whether the advance loop retires this slot (and so calls row_removed once). */
  function RetiresNow(o: Slot): nat {
    if o.active && o.col == 0 then 1 else 0
  }

  /** Number of slots the advance loop retires, counted in slot order. */
  function Retired(s: seq<Slot>): (n: nat)
    ensures n <= |s|
  {
    if s == [] then 0 else Retired(s[..|s| - 1]) + RetiresNow(s[|s| - 1])
  }

  /** Number of active slots. */
  function ActiveCount(s: seq<Slot>): (n: nat)
    ensures n <= |s|
  {
    if s == [] then 0 else ActiveCount(s[..|s| - 1]) + (if s[|s| - 1].active then 1 else 0)
  }

  /**
   * is_obstacle_here: the pattern of the lowest-index active slot on cell
   * (col, row), or 0 when no active slot is there.
   */
  function ObstacleAt(s: seq<Slot>, col: int, row: int): (p: int)
    ensures !Collides(s, col, row) ==> p == 0
    ensures forall i ::
      (0 <= i < |s| && Occupies(s[i], col, row) &&
       forall j :: 0 <= j < i ==> !Occupies(s[j], col, row)) ==> p == s[i].pattern
  {
    if s == [] then 0
    else if Occupies(s[0], col, row) then s[0].pattern
    else ObstacleAt(s[1..], col, row)
  }

  /** The advance loop applied `n` times to one slot. */
  function AdvanceSlotN(o: Slot, n: nat): Slot
    decreases n
  {
    if n == 0 then o else AdvanceSlotN(AdvanceSlot(o), n - 1)
  }

  /**
   * Lifetime of an obstacle: an active obstacle at column c is still active at
   * column c - n after n advances while n <= c, and is retired (freed, column 0)
   * by advance c + 1 and stays free afterwards.
   */
  lemma {:induction false} ObstacleLifetime(o: Slot, n: nat)
    requires o.active && o.col >= 0
    ensures AdvanceSlotN(o, n) ==
      if n <= o.col then o.(col := o.col - n) else o.(active := false, col := 0)
    decreases n
  {
    if n > 0 {
      if o.col == 0 {
        FreeSlotStaysFree(o.(active := false), n - 1);
      } else {
        ObstacleLifetime(o.(col := o.col - 1), n - 1);
      }
    }
  }

  lemma {:induction false} FreeSlotStaysFree(o: Slot, n: nat)
    requires !o.active
    ensures AdvanceSlotN(o, n) == o
  {
    if n > 0 {
      FreeSlotStaysFree(o, n - 1);
    }
  }

  /** The advance loop's running count: one more slot adds its own retirement. */
  lemma RetiredPrefix(s: seq<Slot>, i: nat)
    requires i < |s|
    ensures Retired(s[..i + 1]) == Retired(s[..i]) + RetiresNow(s[i])
  {
    assert s[..i + 1][..i] == s[..i];
  }

  /** Every slot that leaves the active set in an advance is counted by Retired. */
  lemma {:induction false} AdvanceCountsRetired(s: seq<Slot>)
    ensures ActiveCount(Advanced(s)) + Retired(s) == ActiveCount(s)
  {
    if s != [] {
      var n := |s|;
      assert Advanced(s)[..n - 1] == Advanced(s[..n - 1]);
      AdvanceCountsRetired(s[..n - 1]);
    }
  }

  /** Advancing a table with no active obstacle changes nothing and retires nothing. */
  lemma {:induction false} AdvanceIdle(s: seq<Slot>)
    requires ActiveCount(s) == 0
    ensures Advanced(s) == s && Retired(s) == 0
  {
    if s != [] {
      var n := |s|;
      AdvanceIdle(s[..n - 1]);
    }
  }

  /** A table with every slot free has no active obstacle. */
  lemma {:induction false} NoneActive(s: seq<Slot>)
    requires forall i :: 0 <= i < |s| ==> !s[i].active
    ensures ActiveCount(s) == 0
  {
    if s != [] {
      NoneActive(s[..|s| - 1]);
    }
  }

  /** Overwriting one slot changes the active count by the difference in activity. */
  lemma {:induction false} ActiveCountUpdate(s: seq<Slot>, k: nat, o: Slot)
    requires k < |s|
    ensures ActiveCount(s[k := o]) + (if s[k].active then 1 else 0)
         == ActiveCount(s) + (if o.active then 1 else 0)
  {
    var n := |s|;
    if k == n - 1 {
      assert s[k := o][..n - 1] == s[..n - 1];
    } else {
      assert s[k := o][..n - 1] == s[..n - 1][k := o];
      ActiveCountUpdate(s[..n - 1], k, o);
    }
  }

  /** A spawn fills exactly one slot unless the table is full. */
  lemma SpawnAddsOne(s: seq<Slot>, roll: int)
    ensures ActiveCount(Spawned(s, roll)) == ActiveCount(s) + (if AllActive(s) then 0 else 1)
  {
    var k := FirstFree(s);
    if k < |s| {
      ActiveCountUpdate(s, k, NewObstacle(roll));
    }
  }

  /**
   * A collision query and the rendering query agree: some active slot stands on
   * the cell exactly when is_obstacle_here reports a (non-zero) pattern there.
   */
  lemma {:induction false} CollidesIffObstacleAt(s: seq<Slot>, col: int, row: int)
    requires forall i :: 0 <= i < |s| ==> SlotOk(s[i])
    ensures Collides(s, col, row) <==> ObstacleAt(s, col, row) != 0
  {
    if s != [] && !Occupies(s[0], col, row) {
      CollidesIffObstacleAt(s[1..], col, row);
      if Collides(s, col, row) {
        var i :| 0 <= i < |s| && Occupies(s[i], col, row);
        assert Occupies(s[1..][i - 1], col, row);
      }
      if Collides(s[1..], col, row) {
        var i :| 0 <= i < |s| - 1 && Occupies(s[1..][i], col, row);
        assert Occupies(s[i + 1], col, row);
      }
    }
  }
}
