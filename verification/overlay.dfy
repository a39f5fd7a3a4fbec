/**
 * The message overlay: which message columns have locked (revealed) and at
 * which fade stage, when the message completed, and whether it is
 * dissolving. Each transition of the reveal -> hold -> dissolve -> next
 * message cycle is a function on an Overlay value.
 */
module Overlay {
  import opened Settings
  import opened Layout

  datatype Option<T> = None | Some(value: T)

  datatype Overlay = Overlay(
    msgIndex: nat,
    layout: Layout,
    locked: map<int, nat>,        // message column -> fade stage
    completeTime: Option<real>,   // clock reading when the last column locked
    dissolving: bool)

  /**
   * The invariant every transition keeps: only message columns lock, every
   * stage indexes FadeSteps, stages move only while dissolving, dissolving
   * needs a completion time, and a completed message that is not dissolving
   * has every column locked.
   */
  ghost predicate Inv(o: Overlay)
  {
    && o.locked.Keys <= o.layout.cols.Keys
    && (forall x :: x in o.locked ==> o.locked[x] < |FadeSteps|)
    && (!o.dissolving ==> forall x :: x in o.locked ==> o.locked[x] == 0)
    && (o.dissolving ==> o.completeTime.Some?)
    && (o.completeTime.Some? && !o.dissolving ==> o.locked.Keys == o.layout.cols.Keys)
  }

  /** Python truthiness of the completion time: absent and 0.0 are both false. */
  predicate Truthy(t: Option<real>)
  {
    t.Some? && t.value != 0.0
  }

  /** A subset of a finite set with as many elements is the set itself. */
  lemma SubsetOfSameSize<T>(a: set<T>, b: set<T>)
    requires a <= b && |a| == |b|
    ensures a == b
  {
    assert b == a + (b - a);
    assert |b - a| == 0;
    assert b - a == {};
  }

  /** The overlay after placing message `index` on a `height` x `width` grid. */
  function Fresh(msgs: seq<string>, index: nat, height: nat, width: nat): (o: Overlay)
    requires index < |msgs|
    ensures Inv(o)
    ensures o.locked == map[] && o.completeTime == None && !o.dissolving
    ensures o.msgIndex == index && o.layout == Place(msgs[index], height, width)
  {
    Overlay(index, Place(msgs[index], height, width), map[], None, false)
  }

  /**
   * The lock check for message column candidate `x` whose falling head is on
   * row `y`, made when the column fires; `clock` is the time read if this
   * lock completes the message.
   */
  function LockColumn(o: Overlay, x: int, y: int, clock: real): (r: Overlay)
    requires Inv(o)
    ensures Inv(r)
    ensures r.layout == o.layout && r.msgIndex == o.msgIndex && r.dissolving == o.dissolving
    // a column locks, at stage 0, exactly when it is an unlocked message
    // column, the overlay is not dissolving and the head is at or past the row
    ensures (x in r.locked && x !in o.locked)
            <==> (x in o.layout.cols && !o.dissolving && x !in o.locked && y >= o.layout.row)
    ensures r.locked == o.locked || (x !in o.locked && r.locked == o.locked[x := 0])
    ensures r.locked == o.locked ==> r == o
    // the completion time is recorded only by the lock that completes the message
    ensures r.completeTime != o.completeTime
            ==> r.completeTime == Some(clock) && r.locked.Keys == r.layout.cols.Keys
    ensures r.locked != o.locked && r.locked.Keys == r.layout.cols.Keys
            ==> r.completeTime == Some(clock)
  {
    if x in o.layout.cols && !o.dissolving && x !in o.locked && y >= o.layout.row then
      var locked := o.locked[x := 0];
      if |locked| == |o.layout.cols| then
        SubsetOfSameSize(locked.Keys, o.layout.cols.Keys);
        o.(locked := locked, completeTime := Some(clock))
      else
        assert locked.Keys != o.layout.cols.Keys;
        o.(locked := locked)
    else
      o
  }

  /**
   * The hold check at time `now`: a completed message that is not yet
   * dissolving starts to dissolve once strictly more than HoldSeconds
   * have passed since it completed.
   */
  function Hold(o: Overlay, now: real): (r: Overlay)
    requires Inv(o)
    ensures Inv(r)
    ensures r == o.(dissolving := r.dissolving)
    ensures r.dissolving && !o.dissolving
            <==> Truthy(o.completeTime) && !o.dissolving && now - o.completeTime.value > HoldSeconds
    ensures o.dissolving ==> r.dissolving
  {
    if Truthy(o.completeTime) && !o.dissolving && now - o.completeTime.value > HoldSeconds then
      o.(dissolving := true)
    else
      o
  }

  /**
   * One dissolve tick on locked column `x`: its stage goes up by one, and
   * it is released once the stage runs past the last fade step.
   */
  function DissolveTick(o: Overlay, x: int): (r: Overlay)
    requires Inv(o) && o.dissolving && x in o.locked
    ensures Inv(r)
    ensures r == o.(locked := r.locked)
    ensures r.locked.Keys <= o.locked.Keys
    ensures forall k :: k in o.locked && k != x ==> k in r.locked && r.locked[k] == o.locked[k]
    ensures x in r.locked <==> o.locked[x] + 1 < |FadeSteps|
    ensures x in r.locked ==> r.locked[x] == o.locked[x] + 1
  {
    var stage := o.locked[x] + 1;
    if stage >= |FadeSteps| then o.(locked := o.locked - {x})
    else o.(locked := o.locked[x := stage])
  }

  /** Round-robin successor of message index `i` among `n` messages. */
  function NextIndex(i: nat, n: nat): (j: nat)
    requires i < n
    ensures j < n
    ensures i + 1 < n ==> j == i + 1
    ensures i + 1 == n ==> j == 0
  {
    (i + 1) % n
  }

  /**
   * Once a dissolving message has no locked column left, the next message
   * in round-robin order is placed on the current grid and the cycle restarts.
   */
  function Rotate(o: Overlay, msgs: seq<string>, height: nat, width: nat): (r: Overlay)
    requires Inv(o) && o.msgIndex < |msgs|
    ensures Inv(r) && r.msgIndex < |msgs|
    ensures o.dissolving && o.locked == map[] ==>
              && r.msgIndex == NextIndex(o.msgIndex, |msgs|)
              && r.layout == Place(msgs[r.msgIndex], height, width)
              && r.locked == map[] && r.completeTime == None && !r.dissolving
    ensures !(o.dissolving && o.locked == map[]) ==> r == o
    ensures o.dissolving && o.locked == map[] && o.msgIndex == |msgs| - 1 ==> r.msgIndex == 0
  {
    if o.dissolving && o.locked == map[] then Fresh(msgs, NextIndex(o.msgIndex, |msgs|), height, width)
    else o
  }

  /**
   * With a single message, a finished cycle places the same message again
   * and, on an unchanged grid, re-derives exactly the same layout.
   */
  lemma SingleMessageCycle(o: Overlay, msg: string, height: nat, width: nat)
    requires Inv(o) && o.msgIndex == 0 && o.layout == Place(msg, height, width)
    requires o.dissolving && o.locked == map[]
    ensures Rotate(o, [msg], height, width) == o.(completeTime := None, dissolving := false)
  {
  }

  /** A map with at least one entry has a key. */
  lemma HasKey(m: map<int, nat>)
    requires |m| != 0
    ensures exists k :: k in m
  {
    if forall k :: k !in m {
      assert false;
    }
  }

  /** What is still to dissolve: the fade steps each locked column has left. */
  ghost function Remaining(m: map<int, nat>): (r: int)
    decreases |m|
  {
    if |m| == 0 then 0
    else
      HasKey(m);
      var k :| k in m;
      (|FadeSteps| - m[k]) + Remaining(m - {k})
  }

  /** Remaining may be computed by taking out any key first. */
  lemma {:induction false} RemainingRemove(m: map<int, nat>, k: int)
    requires k in m
    ensures Remaining(m) == (|FadeSteps| - m[k]) + Remaining(m - {k})
    decreases |m|
  {
    var j :| j in m && Remaining(m) == (|FadeSteps| - m[j]) + Remaining(m - {j});
    if j != k {
      assert m - {j} - {k} == m - {k} - {j};
      RemainingRemove(m - {j}, k);
      RemainingRemove(m - {k}, j);
    }
  }

  /**
   * With every stage below |FadeSteps|, each locked column has between one
   * and |FadeSteps| steps left, so nothing is left exactly when nothing is locked.
   */
  lemma {:induction false} RemainingBounds(m: map<int, nat>)
    requires forall x :: x in m ==> m[x] < |FadeSteps|
    ensures |m| <= Remaining(m) <= |FadeSteps| * |m|
    ensures Remaining(m) == 0 <==> m == map[]
    decreases |m|
  {
    if |m| != 0 {
      HasKey(m);
      var k :| k in m;
      RemainingRemove(m, k);
      RemainingBounds(m - {k});
    }
  }

  /**
   * Every dissolve tick removes exactly one fade step, so a dissolving
   * message with n locked columns is gone after at most |FadeSteps| * n ticks.
   */
  lemma DissolveTickProgress(o: Overlay, x: int)
    requires Inv(o) && o.dissolving && x in o.locked
    ensures Remaining(DissolveTick(o, x).locked) == Remaining(o.locked) - 1
    ensures Remaining(o.locked) <= |FadeSteps| * |o.locked|
  {
    var r := DissolveTick(o, x);
    RemainingRemove(o.locked, x);
    if x in r.locked {
      RemainingRemove(r.locked, x);
      assert r.locked - {x} == o.locked - {x};
    } else {
      assert r.locked == o.locked - {x};
    }
    RemainingBounds(o.locked);
  }
}
