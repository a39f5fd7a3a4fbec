/**
 * What one frame's sweep over the columns does, as a function: each column
 * that fires draws its head and trail, takes part in the lock check, and
 * has its message character drawn over the rain when it is locked.
 */
module Columns {
  import opened Settings
  import opened Screen
  import opened Layout
  import opened Overlay

  /** The overlay and the drawn cells, as the sweep carries them along. */
  datatype Pass = Pass(o: Overlay, cells: Cells)

  /** The glyphs sampled for one firing column: the head's, then one per trail offset. */
  predicate SampleOk(s: seq<char>)
  {
    |s| == Trail
  }

  predicate SamplesOk(samples: seq<seq<char>>)
  {
    forall x :: 0 <= x < |samples| ==> SampleOk(samples[x])
  }

  /** A column fires when its timer, after this frame's tick, is not below its speed. */
  predicate Fires(timer: real, speed: real)
  {
    !(timer + Tick < speed)
  }

  /** Which of the first `width` columns fire this frame. */
  function Fired(timers: seq<real>, speeds: seq<real>, width: nat): (f: seq<bool>)
    requires width <= |timers| && width <= |speeds|
    ensures |f| == width
    ensures forall x :: 0 <= x < width ==> (f[x] <==> Fires(timers[x], speeds[x]))
  {
    seq(width, x requires 0 <= x < width => Fires(timers[x], speeds[x]))
  }

  /** The row a drop moves to after its column fires, wrapping to the top. */
  function NextRow(y: int, height: int): (r: int)
    requires height > 0
    ensures 0 <= r < height
    ensures 0 <= y < height - 1 ==> r == y + 1
    ensures y == height - 1 ==> r == 0
    ensures y == height ==> r == (if height == 1 then 0 else 1)
  {
    (y + 1) % height
  }

  /** A column's timer after this frame: restarted when it fires, one tick later otherwise. */
  function TimerAfter(timer: real, speed: real): (t: real)
  {
    if Fires(timer, speed) then 0.0 else timer + Tick
  }

  /** A column's drop row after this frame: one row down, wrapped, when it fires. */
  function DropAfter(y: int, timer: real, speed: real, height: int): (r: int)
    requires height > 0
  {
    if Fires(timer, speed) then NextRow(y, height) else y
  }

  /** Every timer after a sweep over the first `k` columns; the others are untouched. */
  function Ticked(timers: seq<real>, speeds: seq<real>, k: nat): (ts: seq<real>)
    requires k <= |timers| <= |speeds|
    ensures |ts| == |timers|
  {
    seq(|timers|, c requires 0 <= c < |timers| => if c < k then TimerAfter(timers[c], speeds[c]) else timers[c])
  }

  /** Every drop row after a sweep over the first `k` columns; the others are untouched. */
  function Advanced(drops: seq<int>, timers: seq<real>, speeds: seq<real>, height: int, k: nat): (ds: seq<int>)
    requires height > 0 && k <= |drops| == |timers| <= |speeds|
    ensures |ds| == |drops|
  {
    seq(|drops|, c requires 0 <= c < |drops| =>
      if c < k then DropAfter(drops[c], timers[c], speeds[c], height) else drops[c])
  }

  /**
   * Column by column, a sweep over the first `k` columns restarts the timer
   * of each column that fires and moves its drop one row down, wrapped;
   * it adds one tick to the timer of each column that does not fire and
   * keeps its drop; and it leaves the columns from `k` on untouched.
   */
  lemma SweepEffect(drops: seq<int>, timers: seq<real>, speeds: seq<real>, height: int, k: nat, c: int)
    requires height > 0 && k <= |drops| == |timers| <= |speeds| && 0 <= c < |drops|
    ensures c < k && Fires(timers[c], speeds[c]) ==>
              Ticked(timers, speeds, k)[c] == 0.0 && Advanced(drops, timers, speeds, height, k)[c] == NextRow(drops[c], height)
    ensures c < k && !Fires(timers[c], speeds[c]) ==>
              Ticked(timers, speeds, k)[c] == timers[c] + Tick && Advanced(drops, timers, speeds, height, k)[c] == drops[c]
    ensures k <= c ==>
              Ticked(timers, speeds, k)[c] == timers[c] && Advanced(drops, timers, speeds, height, k)[c] == drops[c]
  {
  }

  /** Sweeping one more column changes that column's timer and no other. */
  lemma TickedStep(timers: seq<real>, speeds: seq<real>, k: nat)
    requires k < |timers| <= |speeds|
    ensures Ticked(timers, speeds, k)[k] == timers[k]
    ensures Ticked(timers, speeds, k)[k := TimerAfter(timers[k], speeds[k])] == Ticked(timers, speeds, k + 1)
  {
  }

  /** Sweeping one more column changes that column's drop row and no other. */
  lemma AdvancedStep(drops: seq<int>, timers: seq<real>, speeds: seq<real>, height: int, k: nat)
    requires height > 0 && k < |drops| == |timers| <= |speeds|
    ensures Advanced(drops, timers, speeds, height, k)[k] == drops[k]
    ensures Advanced(drops, timers, speeds, height, k)[k := DropAfter(drops[k], timers[k], speeds[k], height)]
            == Advanced(drops, timers, speeds, height, k + 1)
  {
  }

  /** Every timer lies in [0, its column's speed). */
  predicate TimersOk(timers: seq<real>, speeds: seq<real>)
  {
    |timers| <= |speeds| && forall c :: 0 <= c < |timers| ==> 0.0 <= timers[c] < speeds[c]
  }

  /** Every drop row is at or below the top row. */
  predicate DropsOk(drops: seq<int>)
  {
    forall c :: 0 <= c < |drops| ==> drops[c] >= 0
  }

  /**
   * Timers stay in [0, speed): a column that fires restarts at 0, and one
   * that does not is, by definition, still below its speed after the tick.
   */
  lemma TickedInRange(timers: seq<real>, speeds: seq<real>, k: nat)
    requires k <= |timers| <= |speeds|
    requires TimersOk(timers, speeds)
    ensures TimersOk(Ticked(timers, speeds, k), speeds)
  {
  }

  /**
   * Drop rows stay non-negative, and every column that fired has its drop
   * on the grid afterwards, even one that started at row `height`.
   */
  lemma AdvancedInRange(drops: seq<int>, timers: seq<real>, speeds: seq<real>, height: int, k: nat)
    requires height > 0 && k <= |drops| == |timers| <= |speeds|
    requires DropsOk(drops)
    ensures DropsOk(Advanced(drops, timers, speeds, height, k))
    ensures forall c :: 0 <= c < k && Fires(timers[c], speeds[c]) ==>
              0 <= Advanced(drops, timers, speeds, height, k)[c] < height
  {
  }

  /** The row of trail offset `i` above a head on row `y`, wrapped onto the grid. */
  function TrailRow(y: int, i: int, height: int): (r: int)
    requires height > 0
    ensures 0 <= r < height
  {
    (y - i) % height
  }

  /** The trail cells for offsets 1 .. k-1 of column `x`, drawn in that order. */
  function DrawTrail(cells: Cells, height: int, width: int, x: int, y: int, s: seq<char>, k: nat): (r: Cells)
    requires height > 0 && SampleOk(s) && k <= Trail
    decreases k
  {
    if k <= 1 then cells
    else
      Write(DrawTrail(cells, height, width, x, y, s, k - 1), height, width,
            TrailRow(y, k - 1, height), x, Cell(s[k - 1], TrailPair))
  }

  /** The message character of locked column `x`, in the emphasis of its fade stage. */
  function MessageCell(o: Overlay, x: int): (c: Cell)
    requires Inv(o) && x in o.locked
  {
    Cell(o.layout.cols[x], MessagePair(FadeSteps[o.locked[x]]))
  }

  /**
   * One firing column `x` whose drop is on row `y`: head, trail, lock check,
   * then the message character over whatever the rain put on its cell.
   */
  function FireColumn(p: Pass, height: int, width: int, x: int, y: int, s: seq<char>, clock: real): (r: Pass)
    requires Inv(p.o) && height > 0 && SampleOk(s)
    ensures r.o == LockColumn(p.o, x, y, clock)
  {
    var rain := Rain(p.cells, height, width, x, y, s);
    var o := LockColumn(p.o, x, y, clock);
    if x in o.layout.cols && x in o.locked then
      Pass(o, rain[(o.layout.row, x) := MessageCell(o, x)])
    else
      Pass(o, rain)
  }

  /** The sweep over columns 0 .. k-1; a column that does not fire is skipped entirely. */
  function ColumnPass(p0: Pass, height: int, width: int, fired: seq<bool>, ys: seq<int>,
                      samples: seq<seq<char>>, clock: real, k: nat): (p: Pass)
    requires Inv(p0.o) && height > 0 && SamplesOk(samples)
    requires k <= |fired| && k <= |ys| && k <= |samples|
    ensures Inv(p.o)
    ensures p.o.layout == p0.o.layout && p.o.msgIndex == p0.o.msgIndex
    ensures p.o.dissolving == p0.o.dissolving
    decreases k
  {
    if k == 0 then p0
    else
      var p := ColumnPass(p0, height, width, fired, ys, samples, clock, k - 1);
      if fired[k - 1] then FireColumn(p, height, width, k - 1, ys[k - 1], samples[k - 1], clock)
      else p
  }

  /** The trail writes touch only column `x`, and only on the grid. */
  lemma {:induction false} DrawTrailColumn(cells: Cells, height: int, width: int, x: int, y: int, s: seq<char>, k: nat)
    requires height > 0 && SampleOk(s) && k <= Trail
    ensures var r := DrawTrail(cells, height, width, x, y, s, k);
            && (forall p :: p in r ==> p in cells || (InBounds(height, width, p.0, p.1) && p.1 == x))
            && (forall p :: p in cells && p.1 != x ==> p in r && r[p] == cells[p])
    decreases k
  {
    if k > 1 {
      DrawTrailColumn(cells, height, width, x, y, s, k - 1);
    }
  }

  /** No multiple of a positive `height` lies strictly between 0 and `height`. */
  lemma NoMultipleBelow(m: int, height: int)
    requires height > 0
    ensures !(0 < m * height < height)
  {
    if m <= 0 {
      assert m * height <= 0;
    } else {
      assert m * height == (m - 1) * height + height;
      assert (m - 1) * height >= 0;
    }
  }

  /** Two trail offsets less than `height` apart land on different rows. */
  lemma TrailRowsDistinct(y: int, i: int, j: int, height: int)
    requires height > 0 && 0 <= i < j && j - i < height
    ensures TrailRow(y, i, height) != TrailRow(y, j, height)
  {
    var a, b := y - i, y - j;
    var qa, qb := a / height, b / height;
    assert a == qa * height + a % height;
    assert b == qb * height + b % height;
    if a % height == b % height {
      assert j - i == qa * height - qb * height;
      assert qa * height - qb * height == (qa - qb) * height;
      NoMultipleBelow(qa - qb, height);
    }
  }

  /** The head and trail of a firing column, before any message glyph. */
  function Rain(cells: Cells, height: int, width: int, x: int, y: int, s: seq<char>): (r: Cells)
    requires height > 0 && SampleOk(s)
  {
    DrawTrail(Write(cells, height, width, y, x, Cell(s[0], HeadPair)), height, width, x, y, s, Trail)
  }

  /**
   * On a grid of at least Trail rows the trail rows are distinct, so each
   * trail offset keeps the glyph sampled for it.
   */
  lemma {:induction false} DrawTrailCells(cells: Cells, height: int, width: int, x: int, y: int, s: seq<char>, k: nat)
    requires height >= Trail && 0 <= x < width && SampleOk(s) && k <= Trail
    ensures forall i :: 1 <= i < k ==>
              var r := DrawTrail(cells, height, width, x, y, s, k);
              (TrailRow(y, i, height), x) in r && r[(TrailRow(y, i, height), x)] == Cell(s[i], TrailPair)
    decreases k
  {
    if k > 1 {
      DrawTrailCells(cells, height, width, x, y, s, k - 1);
      forall i | 1 <= i < k - 1
        ensures TrailRow(y, i, height) != TrailRow(y, k - 1, height)
      {
        TrailRowsDistinct(y, i, k - 1, height);
      }
    }
  }

  /** A trail that never reaches row `y` leaves the cell (y, x) alone. */
  lemma {:induction false} DrawTrailMisses(cells: Cells, height: int, width: int, x: int, y: int, s: seq<char>, k: nat)
    requires height > 0 && SampleOk(s) && k <= Trail
    requires forall i :: 1 <= i < k ==> TrailRow(y, i, height) != y
    requires (y, x) in cells
    ensures var r := DrawTrail(cells, height, width, x, y, s, k);
            (y, x) in r && r[(y, x)] == cells[(y, x)]
    decreases k
  {
    if k > 1 {
      DrawTrailMisses(cells, height, width, x, y, s, k - 1);
    }
  }

  /**
   * The head glyph of a firing column stays on the drop's row when that row
   * is on a grid of at least Trail rows.
   */
  lemma RainHead(cells: Cells, height: int, width: int, x: int, y: int, s: seq<char>)
    requires height >= Trail && 0 <= x < width && SampleOk(s)
    ensures var r := Rain(cells, height, width, x, y, s);
            0 <= y < height ==> (y, x) in r && r[(y, x)] == Cell(s[0], HeadPair)
  {
    if 0 <= y < height {
      var head := Write(cells, height, width, y, x, Cell(s[0], HeadPair));
      forall i | 1 <= i < Trail ensures TrailRow(y, i, height) != y {
        TrailRowsDistinct(y, 0, i, height);
      }
      DrawTrailMisses(head, height, width, x, y, s, Trail);
    }
  }

  /** A head off the grid, on any grid, is dropped and only the trail is drawn. */
  lemma RainOffGridHead(cells: Cells, height: int, width: int, x: int, y: int, s: seq<char>)
    requires height > 0 && SampleOk(s) && !(0 <= y < height)
    ensures Rain(cells, height, width, x, y, s) == DrawTrail(cells, height, width, x, y, s, Trail)
  {
  }

  /** Each trail row of a firing column holds the glyph sampled for its offset. */
  lemma RainTrail(cells: Cells, height: int, width: int, x: int, y: int, s: seq<char>)
    requires height >= Trail && 0 <= x < width && SampleOk(s)
    ensures var r := Rain(cells, height, width, x, y, s);
            forall i :: 1 <= i < Trail ==>
              (TrailRow(y, i, height), x) in r
              && r[(TrailRow(y, i, height), x)] == Cell(s[i], TrailPair)
  {
    var head := Write(cells, height, width, y, x, Cell(s[0], HeadPair));
    DrawTrailCells(head, height, width, x, y, s, Trail);
  }

  /**
   * A firing column that is locked after its lock check ends with its
   * message glyph on the message row: it is drawn after the head and trail.
   */
  lemma FireColumnMessageLast(p: Pass, height: int, width: int, x: int, y: int, s: seq<char>, clock: real)
    requires Inv(p.o) && height > 0 && SampleOk(s)
    ensures var r := FireColumn(p, height, width, x, y, s, clock);
            && (x in r.o.locked ==> r.cells == Rain(p.cells, height, width, x, y, s)[(r.o.layout.row, x) := MessageCell(r.o, x)])
            && (x !in r.o.locked ==> r.cells == Rain(p.cells, height, width, x, y, s))
  {
  }

  /** The rain of column `x` lands only in column `x`, only on the grid, and leaves other columns alone. */
  lemma RainColumn(cells: Cells, height: int, width: int, x: int, y: int, s: seq<char>)
    requires height > 0 && SampleOk(s)
    ensures var r := Rain(cells, height, width, x, y, s);
            && (forall p :: p in r ==> p in cells || (InBounds(height, width, p.0, p.1) && p.1 == x))
            && (forall p :: p in cells && p.1 != x ==> p in r && r[p] == cells[p])
  {
    var head := Write(cells, height, width, y, x, Cell(s[0], HeadPair));
    DrawTrailColumn(head, height, width, x, y, s, Trail);
  }

  /**
   * Column `c` locks during a sweep over the first `k` columns: it fired,
   * it is a message column not yet locked, its head is at or past the
   * message row, and the overlay is not dissolving.
   */
  ghost predicate LocksThisFrame(o: Overlay, fired: seq<bool>, ys: seq<int>, c: int, k: nat)
    requires k <= |fired| && k <= |ys|
  {
    0 <= c < k && fired[c] && c in o.layout.cols && !o.dissolving && c !in o.locked && ys[c] >= o.layout.row
  }

  /**
   * The sweep locks exactly the columns LocksThisFrame names, each at
   * stage 0, and leaves the stage of every column already locked alone.
   */
  lemma {:induction false} ColumnPassLocks(p0: Pass, height: int, width: int, fired: seq<bool>, ys: seq<int>,
                                           samples: seq<seq<char>>, clock: real, k: nat)
    requires Inv(p0.o) && height > 0 && SamplesOk(samples)
    requires k <= |fired| && k <= |ys| && k <= |samples|
    ensures var p := ColumnPass(p0, height, width, fired, ys, samples, clock, k);
            && (forall c :: c in p.o.locked <==> c in p0.o.locked || LocksThisFrame(p0.o, fired, ys, c, k))
            && (forall c :: c in p0.o.locked ==> p.o.locked[c] == p0.o.locked[c])
            && (forall c :: c in p.o.locked && c !in p0.o.locked ==> p.o.locked[c] == 0)
    decreases k
  {
    if k > 0 {
      ColumnPassLocks(p0, height, width, fired, ys, samples, clock, k - 1);
      var q := ColumnPass(p0, height, width, fired, ys, samples, clock, k - 1);
      if fired[k - 1] {
        LockColumnStep(p0.o, q.o, fired, ys, clock, k - 1);
      }
    }
  }

  /** One more fired column keeps ColumnPassLocks' description of the locked columns. */
  lemma LockColumnStep(o0: Overlay, q: Overlay, fired: seq<bool>, ys: seq<int>, clock: real, x: nat)
    requires Inv(q) && x < |fired| && x < |ys| && fired[x]
    requires q.layout == o0.layout && q.dissolving == o0.dissolving
    requires forall c :: c in q.locked <==> c in o0.locked || LocksThisFrame(o0, fired, ys, c, x)
    ensures var r := LockColumn(q, x, ys[x], clock);
            forall c :: c in r.locked <==> c in o0.locked || LocksThisFrame(o0, fired, ys, c, x + 1)
  {
    assert x in q.locked <==> x in o0.locked;
  }

  /**
   * The completion time changes during a sweep only to this frame's clock
   * reading and only when every message column has locked; and a sweep that
   * locks the last column records it.
   */
  lemma {:induction false} ColumnPassCompletion(p0: Pass, height: int, width: int, fired: seq<bool>, ys: seq<int>,
                                                samples: seq<seq<char>>, clock: real, k: nat)
    requires Inv(p0.o) && height > 0 && SamplesOk(samples)
    requires k <= |fired| && k <= |ys| && k <= |samples|
    ensures var p := ColumnPass(p0, height, width, fired, ys, samples, clock, k);
            && (p.o.completeTime != p0.o.completeTime
                ==> p.o.completeTime == Some(clock) && p.o.locked.Keys == p.o.layout.cols.Keys)
            && (p.o.locked != p0.o.locked && p.o.locked.Keys == p.o.layout.cols.Keys
                ==> p.o.completeTime == Some(clock))
    decreases k
  {
    if k > 0 {
      ColumnPassCompletion(p0, height, width, fired, ys, samples, clock, k - 1);
    }
  }

  /**
   * A sweep that locks no column changes nothing else of the overlay
   * either: the completion time is only ever recorded by a sweep that
   * adds a lock, so a sweep cannot restart a hold.
   */
  lemma {:induction false} ColumnPassNoLockNoChange(p0: Pass, height: int, width: int, fired: seq<bool>, ys: seq<int>,
                                                    samples: seq<seq<char>>, clock: real, k: nat)
    requires Inv(p0.o) && height > 0 && SamplesOk(samples)
    requires k <= |fired| && k <= |ys| && k <= |samples|
    ensures var p := ColumnPass(p0, height, width, fired, ys, samples, clock, k);
            p.o.locked == p0.o.locked ==> p.o == p0.o
    decreases k
  {
    if k > 0 {
      var p := ColumnPass(p0, height, width, fired, ys, samples, clock, k);
      var q := ColumnPass(p0, height, width, fired, ys, samples, clock, k - 1);
      if p.o.locked == p0.o.locked {
        ColumnPassLocks(p0, height, width, fired, ys, samples, clock, k - 1);
        ColumnPassLocks(p0, height, width, fired, ys, samples, clock, k);
        assert q.o.locked.Keys == p0.o.locked.Keys;
        assert q.o.locked == p0.o.locked;
        ColumnPassNoLockNoChange(p0, height, width, fired, ys, samples, clock, k - 1);
      }
    }
  }

  /**
   * While a completed message is held (every column locked, not yet
   * dissolving), a sweep leaves the overlay exactly as it was: nothing
   * locks, no stage moves and the completion time is not re-recorded.
   */
  lemma HoldSweepChangesNothing(p0: Pass, height: int, width: int, fired: seq<bool>, ys: seq<int>,
                                samples: seq<seq<char>>, clock: real, k: nat)
    requires Inv(p0.o) && height > 0 && SamplesOk(samples)
    requires k <= |fired| && k <= |ys| && k <= |samples|
    requires !p0.o.dissolving && p0.o.locked.Keys == p0.o.layout.cols.Keys
    ensures ColumnPass(p0, height, width, fired, ys, samples, clock, k).o == p0.o
  {
    var p := ColumnPass(p0, height, width, fired, ys, samples, clock, k);
    ColumnPassLocks(p0, height, width, fired, ys, samples, clock, k);
    assert p.o.locked.Keys == p0.o.locked.Keys;
    assert p.o.locked == p0.o.locked;
    ColumnPassNoLockNoChange(p0, height, width, fired, ys, samples, clock, k);
  }

  /**
   * Every cell a sweep draws is on the grid and in a column that fired:
   * a skipped column is not drawn at all.
   */
  lemma {:induction false} ColumnPassCells(p0: Pass, height: int, width: int, fired: seq<bool>, ys: seq<int>,
                                           samples: seq<seq<char>>, clock: real, k: nat)
    requires Inv(p0.o) && height > 0 && SamplesOk(samples)
    requires k <= |fired| && k <= |ys| && k <= |samples| && k <= width
    requires 0 <= p0.o.layout.row < height
    ensures var p := ColumnPass(p0, height, width, fired, ys, samples, clock, k);
            forall q :: q in p.cells ==>
              q in p0.cells || (InBounds(height, width, q.0, q.1) && q.1 < k && fired[q.1])
    decreases k
  {
    if k > 0 {
      ColumnPassCells(p0, height, width, fired, ys, samples, clock, k - 1);
      var p := ColumnPass(p0, height, width, fired, ys, samples, clock, k - 1);
      var r := ColumnPass(p0, height, width, fired, ys, samples, clock, k);
      if fired[k - 1] {
        FireColumnCells(p, height, width, k - 1, ys[k - 1], samples[k - 1], clock);
        assert r == FireColumn(p, height, width, k - 1, ys[k - 1], samples[k - 1], clock);
      } else {
        assert r == p;
      }
      forall q | q in r.cells
        ensures q in p0.cells || (InBounds(height, width, q.0, q.1) && q.1 < k && fired[q.1])
      {
        if q !in p.cells {
          assert fired[k - 1] && q.1 == k - 1;
        }
      }
    }
  }

  /** A firing column draws only on the grid and only in its own column. */
  lemma FireColumnCells(p: Pass, height: int, width: int, x: int, y: int, s: seq<char>, clock: real)
    requires Inv(p.o) && height > 0 && SampleOk(s)
    requires 0 <= x < width && 0 <= p.o.layout.row < height
    ensures var r := FireColumn(p, height, width, x, y, s, clock);
            forall q :: q in r.cells ==> q in p.cells || (InBounds(height, width, q.0, q.1) && q.1 == x)
  {
    RainColumn(p.cells, height, width, x, y, s);
    FireColumnMessageLast(p, height, width, x, y, s, clock);
  }

  /**
   * After a sweep, every fired column that is locked shows its message
   * character, in its fade stage's emphasis, on the message row: the
   * message glyph is drawn after that column's rain and no other column
   * draws there.
   */
  lemma {:induction false} ColumnPassMessageWins(p0: Pass, height: int, width: int, fired: seq<bool>, ys: seq<int>,
                                                 samples: seq<seq<char>>, clock: real, k: nat)
    requires Inv(p0.o) && height > 0 && SamplesOk(samples)
    requires k <= |fired| && k <= |ys| && k <= |samples|
    ensures var p := ColumnPass(p0, height, width, fired, ys, samples, clock, k);
            forall c :: 0 <= c < k && fired[c] && c in p.o.locked ==>
              (p.o.layout.row, c) in p.cells && p.cells[(p.o.layout.row, c)] == MessageCell(p.o, c)
    decreases k
  {
    if k > 0 {
      ColumnPassMessageWins(p0, height, width, fired, ys, samples, clock, k - 1);
      var q := ColumnPass(p0, height, width, fired, ys, samples, clock, k - 1);
      var r := ColumnPass(p0, height, width, fired, ys, samples, clock, k);
      if fired[k - 1] {
        var p := FireColumn(q, height, width, k - 1, ys[k - 1], samples[k - 1], clock);
        assert r == p;
        FireColumnMessageLast(q, height, width, k - 1, ys[k - 1], samples[k - 1], clock);
        FireColumnKeepsMessages(q, height, width, k - 1, ys[k - 1], samples[k - 1], clock, fired);
      } else {
        assert r == q;
      }
    }
  }

  /** A firing column leaves the message glyph of another locked column in place. */
  lemma FireColumnKeepsMessage(q: Pass, height: int, width: int, x: int, y: int, s: seq<char>, clock: real, c: int)
    requires Inv(q.o) && height > 0 && SampleOk(s) && c != x
    requires c in q.o.locked ==>
               (q.o.layout.row, c) in q.cells && q.cells[(q.o.layout.row, c)] == MessageCell(q.o, c)
    ensures var p := FireColumn(q, height, width, x, y, s, clock);
            c in p.o.locked ==>
              (p.o.layout.row, c) in p.cells && p.cells[(p.o.layout.row, c)] == MessageCell(p.o, c)
  {
    RainColumn(q.cells, height, width, x, y, s);
    FireColumnMessageLast(q, height, width, x, y, s, clock);
  }

  /** A firing column `x` leaves the message glyphs of the fired columns before it in place. */
  lemma FireColumnKeepsMessages(q: Pass, height: int, width: int, x: int, y: int, s: seq<char>, clock: real,
                                fired: seq<bool>)
    requires Inv(q.o) && height > 0 && SampleOk(s) && 0 <= x <= |fired|
    requires forall c :: 0 <= c < x && fired[c] && c in q.o.locked ==>
               (q.o.layout.row, c) in q.cells && q.cells[(q.o.layout.row, c)] == MessageCell(q.o, c)
    ensures var p := FireColumn(q, height, width, x, y, s, clock);
            forall c :: 0 <= c < x && fired[c] && c in p.o.locked ==>
              (p.o.layout.row, c) in p.cells && p.cells[(p.o.layout.row, c)] == MessageCell(p.o, c)
  {
    forall c | 0 <= c < x && fired[c]
      ensures var p := FireColumn(q, height, width, x, y, s, clock);
              c in p.o.locked ==>
                (p.o.layout.row, c) in p.cells && p.cells[(p.o.layout.row, c)] == MessageCell(p.o, c)
    {
      FireColumnKeepsMessage(q, height, width, x, y, s, clock, c);
    }
  }

  /**
   * What one firing column does to the screen: it draws only on the grid
   * and only in its own column, keeps every cell of the other columns, and,
   * when it is locked after the lock check, ends with its message
   * character in its fade stage's emphasis on the message row.
   */
  lemma FireColumnEffect(p: Pass, height: int, width: int, x: int, y: int, s: seq<char>, clock: real)
    requires Inv(p.o) && height > 0 && SampleOk(s)
    requires 0 <= x < width && 0 <= p.o.layout.row < height
    ensures var r := FireColumn(p, height, width, x, y, s, clock);
            && (forall q :: q in r.cells ==> q in p.cells || (InBounds(height, width, q.0, q.1) && q.1 == x))
            && (forall q :: q in p.cells && q.1 != x ==> q in r.cells && r.cells[q] == p.cells[q])
            && (x in r.o.locked ==> (r.o.layout.row, x) in r.cells && r.cells[(r.o.layout.row, x)] == MessageCell(r.o, x))
  {
    FireColumnCells(p, height, width, x, y, s, clock);
    RainColumn(p.cells, height, width, x, y, s);
    FireColumnMessageLast(p, height, width, x, y, s, clock);
  }

  /** While the message dissolves, a sweep locks nothing and changes no stage. */
  lemma DissolvingSweepLocksNothing(p0: Pass, height: int, width: int, fired: seq<bool>, ys: seq<int>,
                                    samples: seq<seq<char>>, clock: real, k: nat)
    requires Inv(p0.o) && height > 0 && SamplesOk(samples)
    requires k <= |fired| && k <= |ys| && k <= |samples|
    requires p0.o.dissolving
    ensures ColumnPass(p0, height, width, fired, ys, samples, clock, k).o == p0.o
  {
    ColumnPassLocks(p0, height, width, fired, ys, samples, clock, k);
    ColumnPassCompletion(p0, height, width, fired, ys, samples, clock, k);
    var p := ColumnPass(p0, height, width, fired, ys, samples, clock, k);
    assert p.o.locked == p0.o.locked;
  }

  /**
   * On a grid narrower than the message, column `width` is a message column
   * no sweep reaches: it never locks, so the message never completes.
   */
  lemma NarrowGridNeverCompletes(p0: Pass, height: int, width: nat, fired: seq<bool>, ys: seq<int>,
                                 samples: seq<seq<char>>, clock: real)
    requires Inv(p0.o) && height > 0 && SamplesOk(samples)
    requires width <= |fired| && width <= |ys| && width <= |samples|
    requires width in p0.o.layout.cols && width !in p0.o.locked
    ensures var p := ColumnPass(p0, height, width, fired, ys, samples, clock, width);
            && width !in p.o.locked
            && p.o.locked.Keys != p.o.layout.cols.Keys
            && p.o.completeTime == p0.o.completeTime
  {
    ColumnPassLocks(p0, height, width, fired, ys, samples, clock, width);
    ColumnPassCompletion(p0, height, width, fired, ys, samples, clock, width);
  }
}
