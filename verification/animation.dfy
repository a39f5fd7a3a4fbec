/**
 * The animation state and its per-frame step: per-column drop rows and
 * timers held in arrays sized at start-up, the current message's layout,
 * and the lock/hold/dissolve state, all updated in place by Frame.
 */
module Animation {
  import opened Settings
  import opened Glyphs
  import opened Screen
  import opened Layout
  import opened Overlay
  import opened Columns

  class Animation {
    /** Per-column fall speed, drawn once at start-up. */
    const speeds: seq<real>
    /** The message list, Messages. */
    const msgs: seq<string>
    /** Per-column row of the falling head. */
    const drops: array<int>
    /** Per-column time accumulated since the column last fired. */
    const timers: array<real>

    var msgIndex: nat
    var message: string
    var msgRow: int
    var msgCols: map<int, char>
    /** Locked message columns and their fade stage. */
    var locked: map<int, nat>
    var completeTime: Option<real>
    var dissolving: bool

    /** The overlay part of the state as a value. */
    function State(): Overlay
      reads this
    {
      Overlay(msgIndex, Layout(message, msgRow, msgCols), locked, completeTime, dissolving)
    }

    ghost predicate Valid()
      reads this, drops, timers
    {
      && drops.Length == timers.Length == |speeds|
      && DropsOk(drops[..])
      && TimersOk(timers[..], speeds)
      && msgIndex < |msgs| && msgRow >= 0
      && Inv(State())
    }

    /**
     * Start-up on a `height` x `width` grid: every column gets a drop row
     * in 0 .. height (inclusive) and a speed in [0.02, 0.12], drawn by the
     * caller, a zero timer, and the first message is placed.
     */
    constructor (height: nat, width: nat, initialDrops: seq<int>, initialSpeeds: seq<real>)
      requires |initialDrops| == width && |initialSpeeds| == width
      requires forall x :: 0 <= x < width ==> 0 <= initialDrops[x] <= height
      requires forall x :: 0 <= x < width ==> 0.02 <= initialSpeeds[x] <= 0.12
      ensures Valid() && fresh(drops) && fresh(timers)
      ensures drops[..] == initialDrops && speeds == initialSpeeds
      ensures forall x :: 0 <= x < width ==> timers[x] == 0.0
      ensures msgs == Messages && State() == Fresh(Messages, 0, height, width)
    {
      speeds := initialSpeeds;
      msgs := Messages;
      drops := new int[width](x requires 0 <= x < width => initialDrops[x]);
      timers := new real[width](x => 0.0);
      msgIndex := 0;
      new;
      SetupMessage(height, width);
    }

    /**
     * Places message `msgIndex` on a `height` x `width` grid and clears the
     * lock state, the completion time and the dissolve flag.
     */
    method SetupMessage(height: nat, width: nat)
      requires msgIndex < |msgs|
      modifies this`locked, this`completeTime, this`dissolving, this`message, this`msgRow, this`msgCols
      ensures State() == Fresh(msgs, msgIndex, height, width)
      ensures msgRow >= 0
    {
      locked := map[];
      completeTime := None;
      dissolving := false;
      var l := Place(msgs[msgIndex], height, width);
      message, msgRow, msgCols := l.msg, l.row, l.cols;
      assert l == Layout(message, msgRow, msgCols);
    }

    /**
     * One frame on the screen's current grid. `lockClock` is the clock read
     * when a lock completes the message, `now` the clock read after the
     * sweep, `samples[x]` the glyphs drawn from the pool for column x. Returns
     * the locked column a dissolve tick picked, if one ran.
     */
    method Frame(scr: Screen, now: real, lockClock: real, samples: seq<seq<char>>) returns (picked: Option<int>)
      requires Valid()
      requires scr.height > 0 && scr.width <= drops.Length
      requires msgRow < scr.height
      requires |samples| >= scr.width && SamplesOk(samples)
      requires forall x :: 0 <= x < |samples| ==> FromPool(samples[x])
      modifies this, drops, timers, scr`cells
      ensures Valid()
      // each on-grid column's timer and drop row advance as TimerAfter and
      // DropAfter say; the columns beyond the grid are left alone
      ensures timers[..] == Ticked(old(timers[..]), speeds, scr.width)
      ensures drops[..] == Advanced(old(drops[..]), old(timers[..]), speeds, scr.height, scr.width)
      // the drawing and the overlay follow the sweep, then the hold check,
      // at most one dissolve tick, and the rotation check
      ensures var fired := Fired(old(timers[..]), speeds, scr.width);
              var pass := ColumnPass(Pass(old(State()), map[]), scr.height, scr.width, fired,
                                     old(drops[..]), samples, lockClock, scr.width);
              var held := Hold(pass.o, now);
              && scr.cells == pass.cells
              && (picked.Some? <==> held.dissolving && held.locked != map[])
              && (picked.Some? ==> picked.value in held.locked)
              && State() == Rotate(if picked.Some? then DissolveTick(held, picked.value) else held,
                                   msgs, scr.height, scr.width)
    {
      scr.Erase();
      ghost var t0, d0 := timers[..], drops[..];
      Sweep(scr, lockClock, samples);
      TickedInRange(t0, speeds, scr.width);
      AdvancedInRange(d0, t0, speeds, scr.height, scr.width);
      picked := Settle(now, scr.height, scr.width);
    }

    /** The sweep over the grid's columns, left to right. */
    method Sweep(scr: Screen, lockClock: real, samples: seq<seq<char>>)
      requires Inv(State()) && 0 <= msgRow < scr.height
      requires scr.width <= drops.Length == timers.Length == |speeds|
      requires |samples| >= scr.width && SamplesOk(samples)
      modifies this`locked, this`completeTime, drops, timers, scr`cells
      ensures timers[..] == Ticked(old(timers[..]), speeds, scr.width)
      ensures drops[..] == Advanced(old(drops[..]), old(timers[..]), speeds, scr.height, scr.width)
      ensures var p := ColumnPass(Pass(old(State()), old(scr.cells)), scr.height, scr.width,
                                  Fired(old(timers[..]), speeds, scr.width),
                                  old(drops[..]), samples, lockClock, scr.width);
              State() == p.o && scr.cells == p.cells
    {
      var height, width := scr.height, scr.width;
      ghost var t0, d0, p0 := timers[..], drops[..], Pass(State(), scr.cells);
      ghost var fired := Fired(t0, speeds, width);

      for x := 0 to width
        invariant timers[..] == Ticked(t0, speeds, x)
        invariant drops[..] == Advanced(d0, t0, speeds, height, x)
        invariant Pass(State(), scr.cells) == ColumnPass(p0, height, width, fired, d0, samples, lockClock, x)
      {
        SweepColumn(scr, x, lockClock, samples, t0, d0, p0);
      }
    }

    /**
     * Column `x` of the sweep over the first columns, with the first `x`
     * columns already swept from timers `t0`, drop rows `d0` and pass `p0`.
     */
    method SweepColumn(scr: Screen, x: int, lockClock: real, samples: seq<seq<char>>,
                       ghost t0: seq<real>, ghost d0: seq<int>, ghost p0: Pass)
      requires Inv(State()) && 0 <= msgRow < scr.height && Inv(p0.o)
      requires 0 <= x < scr.width <= drops.Length == timers.Length == |speeds| == |t0| == |d0|
      requires |samples| >= scr.width && SamplesOk(samples)
      requires timers[..] == Ticked(t0, speeds, x)
      requires drops[..] == Advanced(d0, t0, speeds, scr.height, x)
      requires Pass(State(), scr.cells)
               == ColumnPass(p0, scr.height, scr.width, Fired(t0, speeds, scr.width), d0, samples, lockClock, x)
      modifies this`locked, this`completeTime, drops, timers, scr`cells
      ensures Inv(State())
      ensures timers[..] == Ticked(t0, speeds, x + 1)
      ensures drops[..] == Advanced(d0, t0, speeds, scr.height, x + 1)
      ensures Pass(State(), scr.cells)
              == ColumnPass(p0, scr.height, scr.width, Fired(t0, speeds, scr.width), d0, samples, lockClock, x + 1)
    {
      TickedStep(t0, speeds, x);
      AdvancedStep(d0, t0, speeds, scr.height, x);
      StepColumn(scr, x, lockClock, samples[x]);
    }

    /**
     * Column `x`'s part of the sweep: advance its timer; if it fires, draw
     * head, trail and (when locked) message glyph, run the lock check and
     * move the drop; otherwise leave everything else alone.
     */
    method StepColumn(scr: Screen, x: int, lockClock: real, s: seq<char>)
      requires Inv(State()) && 0 <= msgRow < scr.height
      requires 0 <= x < scr.width && x < drops.Length == timers.Length == |speeds|
      requires SampleOk(s)
      modifies this`locked, this`completeTime, drops, timers, scr`cells
      ensures Inv(State())
      ensures timers[..] == old(timers[..])[x := TimerAfter(old(timers[x]), speeds[x])]
      ensures drops[..] == old(drops[..])[x := DropAfter(old(drops[x]), old(timers[x]), speeds[x], scr.height)]
      ensures Fires(old(timers[x]), speeds[x]) ==>
                Pass(State(), scr.cells)
                == FireColumn(Pass(old(State()), old(scr.cells)), scr.height, scr.width, x,
                              old(drops[x]), s, lockClock)
      ensures !Fires(old(timers[x]), speeds[x]) ==> State() == old(State()) && scr.cells == old(scr.cells)
    {
      timers[x] := timers[x] + Tick;
      if !(timers[x] < speeds[x]) {
        timers[x] := 0.0;
        var y := drops[x];
        DrawRain(scr, x, y, s);
        LockAndShow(scr, x, y, lockClock);
        drops[x] := NextRow(y, scr.height);
      }
    }

    /**
     * The lock check for column `x` with its head on row `y`, then the
     * message glyph over the rain when the column is a locked message column.
     */
    method LockAndShow(scr: Screen, x: int, y: int, lockClock: real)
      requires Inv(State()) && 0 <= msgRow < scr.height && 0 <= x < scr.width
      modifies this`locked, this`completeTime, scr`cells
      ensures State() == LockColumn(old(State()), x, y, lockClock)
      ensures x in msgCols && x in locked ==>
                scr.cells == old(scr.cells)[(msgRow, x) := MessageCell(State(), x)]
      ensures !(x in msgCols && x in locked) ==> scr.cells == old(scr.cells)
    {
      if x in msgCols {
        if !dissolving {
          if x !in locked && y >= msgRow {
            locked := locked[x := 0];
            if |locked| == |msgCols| {
              SubsetOfSameSize(locked.Keys, msgCols.Keys);
              completeTime := Some(lockClock);
            }
          }
          if x in locked {
            scr.PutOnGrid(msgRow, x, Cell(msgCols[x], MessagePair(FadeSteps[locked[x]])));
          }
        } else {
          if x in locked {
            scr.PutOnGrid(msgRow, x, Cell(msgCols[x], MessagePair(FadeSteps[locked[x]])));
          }
        }
      }
    }

    /**
     * What follows the sweep at time `now`: the hold check, at most one
     * dissolve tick on an arbitrary locked column (returned), and the switch
     * to the next message once nothing is locked while dissolving.
     */
    method Settle(now: real, height: nat, width: nat) returns (picked: Option<int>)
      requires Valid()
      modifies this`msgIndex, this`locked, this`completeTime, this`dissolving, this`message, this`msgRow, this`msgCols
      ensures Valid()
      ensures var held := Hold(old(State()), now);
              && (picked.Some? <==> held.dissolving && held.locked != map[])
              && (picked.Some? ==> picked.value in held.locked)
              && State() == Rotate(if picked.Some? then DissolveTick(held, picked.value) else held,
                                   msgs, height, width)
    {
      CheckHold(now);
      picked := DissolveStep();
      CheckRotate(height, width);
    }

    /** A completed message starts to dissolve once held for HoldSeconds. */
    method CheckHold(now: real)
      requires Inv(State())
      modifies this`dissolving
      ensures State() == Hold(old(State()), now)
    {
      if Truthy(completeTime) && !dissolving {
        if now - completeTime.value > HoldSeconds {
          dissolving := true;
        }
      }
    }

    /** While dissolving, one arbitrary locked column fades by one step. */
    method DissolveStep() returns (picked: Option<int>)
      requires Inv(State())
      modifies this`locked
      ensures picked.Some? <==> dissolving && old(locked) != map[]
      ensures picked.Some? ==> picked.value in old(locked)
                               && State() == DissolveTick(old(State()), picked.value)
      ensures picked.None? ==> locked == old(locked)
    {
      picked := None;
      if dissolving && |locked| != 0 {
        HasKey(locked);
        var x :| x in locked;
        picked := Some(x);
        locked := locked[x := locked[x] + 1];
        if locked[x] >= |FadeSteps| {
          locked := locked - {x};
        }
      }
    }

    /** A dissolved message gives way to the next one, placed afresh. */
    method CheckRotate(height: nat, width: nat)
      requires Inv(State()) && msgIndex < |msgs|
      modifies this`msgIndex, this`locked, this`completeTime, this`dissolving, this`message, this`msgRow, this`msgCols
      ensures State() == Rotate(old(State()), msgs, height, width)
      ensures msgIndex < |msgs|
    {
      if dissolving && |locked| == 0 {
        dissolving := false;
        completeTime := None;
        msgIndex := NextIndex(msgIndex, |msgs|);
        SetupMessage(height, width);
      }
    }
  }

  /** Head and trail of column `x`, whose head is on row `y`. */
  method DrawRain(scr: Screen, x: int, y: int, s: seq<char>)
    requires scr.height > 0 && SampleOk(s)
    modifies scr`cells
    ensures scr.cells == Rain(old(scr.cells), scr.height, scr.width, x, y, s)
  {
    scr.Put(y, x, Cell(s[0], HeadPair));
    ghost var head := scr.cells;
    for i := 1 to Trail
      invariant scr.cells == DrawTrail(head, scr.height, scr.width, x, y, s, i)
    {
      scr.Put(TrailRow(y, i, scr.height), x, Cell(s[i], TrailPair));
    }
  }
}
