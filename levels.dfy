/**
 * Speed levels: the LEVELS table (tick delay and rows still to clear per
 * tier), the current tier, and row_removed, which credits one cleared
 * obstacle. The table's row counters are decremented in place and never
 * restored, so what a tier has counted carries over into later games.
 */
module Levels {

  /** LEVEL_NUM: number of tiers; the last one is terminal. */
  const LevelNum: nat := 3
  const TopLevel: int := LevelNum - 1

  /** The `delay` column of LEVELS: ticks to wait between obstacle steps. */
  const TickDelays: seq<int> := [5, 3, 1]
  /** The initial `rows` column of LEVELS. */
  const InitialRows: seq<int> := [5, 10, 30]

  /** level_current together with the (mutable) rows column of LEVELS. */
  datatype Progress = Progress(current: int, rows: seq<int>)

  predicate ProgressOk(p: Progress) {
    0 <= p.current < LevelNum && |p.rows| == LevelNum
  }

  function TickDelay(level: int): int
    requires 0 <= level < LevelNum
  {
    TickDelays[level]
  }

  /**
   * row_removed: at the top tier nothing happens; otherwise the current tier's
   * counter is decremented and the tier goes up by one exactly when that
   * counter reaches 0.
   */
  function RowRemoved(p: Progress): (q: Progress)
    requires ProgressOk(p)
    ensures ProgressOk(q)
    ensures p.current == TopLevel ==> q == p
    ensures p.current < TopLevel ==> q.rows[p.current] == p.rows[p.current] - 1
    ensures forall j :: 0 <= j < LevelNum && j != p.current ==> q.rows[j] == p.rows[j]
    ensures q.current == p.current || q.current == p.current + 1
    ensures q.current == p.current + 1 <==> p.current < TopLevel && q.rows[p.current] == 0
  {
    if p.current == TopLevel then p
    else
      var rows := p.rows[p.current := p.rows[p.current] - 1];
      if rows[p.current] == 0 then Progress(p.current + 1, rows)
      else Progress(p.current, rows)
  }

  /** row_removed called `n` times in a row. */
  function RowsRemoved(p: Progress, n: nat): (q: Progress)
    requires ProgressOk(p)
    ensures ProgressOk(q)
    ensures p.current <= q.current <= p.current + n
  {
    if n == 0 then p else RowRemoved(RowsRemoved(p, n - 1))
  }

  /**
   * A tier whose counter has already reached 0 (or gone below it, in an earlier
   * game) never advances again: further cleared obstacles only push its
   * counter further down.
   */
  lemma {:induction false} StuckTier(p: Progress, n: nat)
    requires ProgressOk(p) && p.rows[p.current] <= 0
    ensures RowsRemoved(p, n).current == p.current
    ensures RowsRemoved(p, n).rows[p.current] <= p.rows[p.current]
  {
    if n > 0 {
      StuckTier(p, n - 1);
    }
  }

  /**
   * Only the counters of the tiers the game passes through change, and none of
   * them ever goes up.
   */
  lemma {:induction false} RowsOnlyDecrease(p: Progress, n: nat)
    requires ProgressOk(p)
    ensures forall j :: 0 <= j < LevelNum ==> RowsRemoved(p, n).rows[j] <= p.rows[j]
    ensures forall j :: 0 <= j < LevelNum && !(p.current <= j <= RowsRemoved(p, n).current) ==>
      RowsRemoved(p, n).rows[j] == p.rows[j]
  {
    if n > 0 {
      RowsOnlyDecrease(p, n - 1);
    }
  }

  /** Spawn chance in percent for a tier (25, 50, 70). */
  function SpawnChance(level: int): (c: int)
    ensures 0 < c < 100
  {
    if level == 1 then 50 else if level == 2 then 70 else 25
  }

  /** Width of the random part of the spawn cooldown for a tier (10, 7, 5). */
  function SpawnSpread(level: int): (d: int)
    ensures d > 0
  {
    if level == 1 then 7 else if level == 2 then 5 else 10
  }
}
