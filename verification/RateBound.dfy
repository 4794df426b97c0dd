/**
  The sliding-window bounds of the client budget, for clocks that may step back: exactly the clocks that never return
  near a reading they have shown to be expired keep them.
 */
module RateBound {
  import opened Bytes
  import opened RateLimit

  /** The two windows of a budget. */
  datatype Window = Hour | Day
  {
    function Width(): int {
      if Hour? then HOUR else DAY
    }

    function Limit(perHour: U32, perDay: U32): U32 {
      if Hour? then perHour else perDay
    }

    function Queue(b: Budget): seq<Seconds> {
      if Hour? then b.hour else b.day
    }
  }

  /** How many readings fall into `[from, from + width)`. */
  function CountWithin(s: seq<Seconds>, from: int, width: int): (r: nat)
    ensures r <= |s|
  {
    if s == [] then 0
    else
      var n := |s| - 1;
      CountWithin(s[..n], from, width) + if from <= s[n] < from + width then 1 else 0
  }

  lemma CountAppend(s: seq<Seconds>, t: Seconds, from: int, width: int)
    ensures CountWithin(s + [t], from, width) ==
            CountWithin(s, from, width) + if from <= t < from + width then 1 else 0
  {
    assert (s + [t])[..|s|] == s;
  }

  /** Readings outside the interval in front of a list do not count. */
  lemma {:induction false} CountSuffix(past: seq<Seconds>, s: seq<Seconds>, from: int, width: int)
    requires forall t :: t in past ==> !(from <= t < from + width)
    ensures CountWithin(past + s, from, width) == CountWithin(s, from, width)
    decreases |past| + |s|
  {
    if s != [] {
      var n := |s| - 1;
      assert past + s == (past + s[..n]) + [s[n]];
      CountAppend(past + s[..n], s[n], from, width);
      CountSuffix(past, s[..n], from, width);
    } else if past != [] {
      var n := |past| - 1;
      assert past + s == past && past == past[..n] + [past[n]];
      assert past[n] in past && forall t :: t in past[..n] ==> t in past;
      CountSuffix(past[..n], [], from, width);
      assert past[..n] + [] == past[..n];
    }
  }

  /** Reading `k` was seen to leave the window at `i`, and at `j` the clock is back within a window's width of it. */
  ghost predicate Returns(clock: seq<Seconds>, w: Window, k: int, i: int, j: int) {
    && 0 <= k < i < j < |clock|
    && clock[i] >= clock[k] + w.Width()
    && clock[k] - w.Width() < clock[j] < clock[k] + w.Width()
  }

  ghost predicate NeverReturns(clock: seq<Seconds>, w: Window) {
    forall k, i, j :: !Returns(clock, w, k, i, j)
  }

  /** The clock showed `t`, and later a reading at which `t` had left the window. */
  ghost predicate SeenToExpire(clock: seq<Seconds>, w: Window, t: Seconds) {
    exists k, i :: 0 <= k < i < |clock| && clock[k] == t && clock[i] >= t + w.Width()
  }

  lemma SeenStays(clock: seq<Seconds>, now: Seconds, w: Window, t: Seconds)
    requires SeenToExpire(clock, w, t)
    ensures SeenToExpire(clock + [now], w, t)
  {
    var k, i :| 0 <= k < i < |clock| && clock[k] == t && clock[i] >= t + w.Width();
    assert (clock + [now])[k] == t && (clock + [now])[i] == clock[i];
  }

  /** What pruning drops from the front had left the window. */
  lemma {:induction false} PruneDrops(s: seq<Seconds>, now: Seconds, width: int) returns (gone: seq<Seconds>)
    requires width > 0
    ensures s == gone + Prune(s, now, width)
    ensures forall t :: t in gone ==> now >= t + width
  {
    if s != [] && SaturatingSub(now, s[0]) >= width {
      var rest := PruneDrops(s[1..], now, width);
      gone := [s[0]] + rest;
      assert s == [s[0]] + s[1..];
    } else {
      gone := [];
    }
  }

  lemma {:induction false} AcceptedWereRead(perHour: U32, perDay: U32, clock: seq<Seconds>)
    ensures forall t :: t in Accepted(perHour, perDay, clock) ==> t in clock
  {
    if clock != [] {
      AcceptedWereRead(perHour, perDay, clock[..|clock| - 1]);
    }
  }

  /** On any clock a queue is the history without some readings that were all seen to expire. */
  lemma {:induction false} QueueIsSuffix(w: Window, perHour: U32, perDay: U32, clock: seq<Seconds>)
    returns (gone: seq<Seconds>)
    ensures Accepted(perHour, perDay, clock) == gone + w.Queue(After(perHour, perDay, clock))
    ensures forall t :: t in gone ==> SeenToExpire(clock, w, t)
    decreases clock, 0
  {
    gone := [];
    if clock != [] {
      var n := |clock| - 1;
      gone := PrunedIsSuffix(w, perHour, perDay, clock[..n], clock[n]);
      assert clock == clock[..n] + [clock[n]];
      QueueAfterCall(w, After(perHour, perDay, clock[..n]), clock[n]);
    }
  }

  /** At `now` so is the pruned queue. */
  lemma {:induction false} PrunedIsSuffix(w: Window, perHour: U32, perDay: U32, clock: seq<Seconds>, now: Seconds)
    returns (gone: seq<Seconds>)
    ensures Accepted(perHour, perDay, clock) == gone + Prune(w.Queue(After(perHour, perDay, clock)), now, w.Width())
    ensures forall t :: t in gone ==> SeenToExpire(clock + [now], w, t)
    decreases clock, 1
  {
    var queue := w.Queue(After(perHour, perDay, clock));
    var early := QueueIsSuffix(w, perHour, perDay, clock);
    var late := PruneDrops(queue, now, w.Width());
    AcceptedWereRead(perHour, perDay, clock);
    gone := early + late;
    forall t | t in gone
      ensures SeenToExpire(clock + [now], w, t)
    {
      if t in early {
        SeenStays(clock, now, w, t);
      } else {
        assert t in late && t in queue && t in early + queue;
        SeenNow(clock, now, w, t);
      }
    }
  }

  lemma SeenNow(clock: seq<Seconds>, now: Seconds, w: Window, t: Seconds)
    requires t in clock && now >= t + w.Width()
    ensures SeenToExpire(clock + [now], w, t)
  {
    var k :| 0 <= k < |clock| && clock[k] == t;
    assert (clock + [now])[k] == t && (clock + [now])[|clock|] == now;
  }

  lemma QueueAfterCall(w: Window, b: Budget, now: Seconds)
    ensures var (after, verdict) := Check(b, now);
            w.Queue(after) == Prune(w.Queue(b), now, w.Width()) + if verdict.Admitted? then [now] else []
  {
  }

  /** An admitted call finds fewer calls in any interval around it than its limit. */
  lemma RoomInWindow(w: Window, perHour: U32, perDay: U32, clock: seq<Seconds>, now: Seconds, from: int)
    requires NeverReturns(clock + [now], w) && from <= now < from + w.Width()
    requires Check(After(perHour, perDay, clock), now).1.Admitted?
    ensures CountWithin(Accepted(perHour, perDay, clock), from, w.Width()) < w.Limit(perHour, perDay)
  {
    var width, whole := w.Width(), clock + [now];
    var gone := PrunedIsSuffix(w, perHour, perDay, clock, now);
    forall t | t in gone
      ensures !(from <= t < from + width)
    {
      var k, i :| 0 <= k < i < |whole| && whole[k] == t && whole[i] >= t + width;
      assert !Returns(whole, w, k, i, |clock|);
      assert whole[|clock|] == now;
    }
    CountSuffix(gone, Prune(w.Queue(After(perHour, perDay, clock)), now, width), from, width);
  }

  /** On a clock that never returns, no interval of the window's width holds more accepted calls than the limit. */
  lemma {:induction false} SlidingWindowBound(w: Window, perHour: U32, perDay: U32, clock: seq<Seconds>, from: int)
    requires NeverReturns(clock, w)
    ensures CountWithin(Accepted(perHour, perDay, clock), from, w.Width()) <= w.Limit(perHour, perDay)
  {
    if clock != [] {
      var n := |clock| - 1;
      var now, earlier := clock[n], clock[..n];
      assert clock == earlier + [now];
      forall k, i, j
        ensures !Returns(earlier, w, k, i, j)
      {
        assert !Returns(clock, w, k, i, j);
      }
      SlidingWindowBound(w, perHour, perDay, earlier, from);
      var before := Accepted(perHour, perDay, earlier);
      if LastVerdict(perHour, perDay, clock).Admitted? {
        CountAppend(before, now, from, w.Width());
        if from <= now < from + w.Width() {
          RoomInWindow(w, perHour, perDay, earlier, now, from);
        }
      } else {
        assert before + [] == before;
      }
    }
  }

  /** A clock that never steps back never returns. */
  lemma SortedNeverReturns(clock: seq<Seconds>, w: Window)
    requires Sorted(clock)
    ensures NeverReturns(clock, w)
  {
    forall k, i, j
      ensures !Returns(clock, w, k, i, j)
    {
      if 0 <= k < i < j < |clock| {
        assert clock[i] <= clock[j];
      }
    }
  }

  // ----- The condition is exact -----

  /** Limits of two calls for the window in question and of ten for the other one. */
  function Limits(w: Window): (U32, U32) {
    if w.Hour? then (2, 10) else (10, 2)
  }

  /** A call that both pruned queues have room for. */
  lemma AdmittedStep(perHour: U32, perDay: U32, clock: seq<Seconds>, now: Seconds)
    requires |Prune(After(perHour, perDay, clock).hour, now, HOUR)| < perHour
    requires |Prune(After(perHour, perDay, clock).day, now, DAY)| < perDay
    ensures var b := After(perHour, perDay, clock);
            After(perHour, perDay, clock + [now]) ==
            Budget(perHour, perDay, Prune(b.hour, now, HOUR) + [now], Prune(b.day, now, DAY) + [now], 0)
    ensures Accepted(perHour, perDay, clock + [now]) == Accepted(perHour, perDay, clock) + [now]
  {
    assert (clock + [now])[..|clock|] == clock;
  }

  lemma PrunePair(a: Seconds, b: Seconds, width: int)
    requires width > 0 && b >= a + width
    ensures Prune([a] + [a], b, width) == []
  {
    var two: seq<Seconds>, one: seq<Seconds> := [a] + [a], [a];
    assert two[1..] == one && |one[1..]| == 0;
    assert Prune(two, b, width) == Prune(one, b, width) == Prune(one[1..], b, width);
  }

  lemma TwoCalls(w: Window, a: Seconds)
    ensures var (perHour, perDay) := Limits(w);
            && After(perHour, perDay, [a] + [a]) == Budget(perHour, perDay, [a] + [a], [a] + [a], 0)
            && Accepted(perHour, perDay, [a] + [a]) == [a] + [a]
  {
    var (perHour, perDay) := Limits(w);
    AdmittedStep(perHour, perDay, [], a);
    assert [] + [a] == [a];
    AdmittedStep(perHour, perDay, [a], a);
  }

  lemma FourCalls(w: Window, a: Seconds, b: Seconds, c: Seconds)
    requires b >= a + w.Width()
    ensures var (perHour, perDay) := Limits(w);
            var calls := [a] + [a] + [b] + [c];
            Accepted(perHour, perDay, calls) == calls
  {
    var (perHour, perDay) := Limits(w);
    TwoCalls(w, a);
    PrunePair(a, b, w.Width());
    AdmittedStep(perHour, perDay, [a] + [a], b);
    AdmittedStep(perHour, perDay, [a] + [a] + [b], c);
  }

  /** Whenever a clock returns, calls at the three readings put three accepted calls into one window of limit two. */
  lemma ReturnBreaksBound(w: Window, a: Seconds, b: Seconds, c: Seconds)
    requires b >= a + w.Width() && a - w.Width() < c < a + w.Width()
    ensures var (perHour, perDay) := Limits(w);
            var from := if a <= c then a else c;
            CountWithin(Accepted(perHour, perDay, [a] + [a] + [b] + [c]), from, w.Width()) == 3
            && w.Limit(perHour, perDay) == 2
  {
    FourCalls(w, a, b, c);
    var from := if a <= c then a else c;
    CountAppend([], a, from, w.Width());
    assert [] + [a] == [a];
    CountAppend([a], a, from, w.Width());
    CountAppend([a] + [a], b, from, w.Width());
    CountAppend([a] + [a] + [b], c, from, w.Width());
  }

  /** Calls made while the clock runs: any number of them, at any of its readings, in order. */
  ghost predicate InOrder(clock: seq<Seconds>, at: seq<nat>) {
    && (forall i :: 0 <= i < |at| ==> at[i] < |clock|)
    && (forall i, j :: 0 <= i < j < |at| ==> at[i] <= at[j])
  }

  function Calls(clock: seq<Seconds>, at: seq<nat>): (r: seq<Seconds>)
    requires forall i :: 0 <= i < |at| ==> at[i] < |clock|
    ensures |r| == |at| && forall i :: 0 <= i < |at| ==> r[i] == clock[at[i]]
  {
    seq(|at|, i requires 0 <= i < |at| => clock[at[i]])
  }

  /** Whatever the limits and whenever calls are made, the clock keeps the bound of the window. */
  ghost predicate KeepsBound(clock: seq<Seconds>, w: Window) {
    forall perHour: U32, perDay: U32, at: seq<nat>, from: int | InOrder(clock, at) ::
      CountWithin(Accepted(perHour, perDay, Calls(clock, at)), from, w.Width()) <= w.Limit(perHour, perDay)
  }

  lemma CallsNeverReturn(clock: seq<Seconds>, at: seq<nat>, w: Window)
    requires NeverReturns(clock, w) && InOrder(clock, at)
    ensures NeverReturns(Calls(clock, at), w)
  {
    forall k, i, j
      ensures !Returns(Calls(clock, at), w, k, i, j)
    {
      if 0 <= k < i < j < |at| {
        assert !Returns(clock, w, at[k], at[i], at[j]);
      }
    }
  }

  /** A clock keeps a window's bound, for all limits and all calls, if and only if it never returns. */
  lemma BoundIffNeverReturns(clock: seq<Seconds>, w: Window)
    ensures KeepsBound(clock, w) <==> NeverReturns(clock, w)
  {
    if NeverReturns(clock, w) {
      forall perHour: U32, perDay: U32, at: seq<nat>, from: int | InOrder(clock, at)
        ensures CountWithin(Accepted(perHour, perDay, Calls(clock, at)), from, w.Width()) <= w.Limit(perHour, perDay)
      {
        CallsNeverReturn(clock, at, w);
        SlidingWindowBound(w, perHour, perDay, Calls(clock, at), from);
      }
    } else {
      var k, i, j :| Returns(clock, w, k, i, j);
      var at: seq<nat> := [k, k, i, j];
      assert InOrder(clock, at);
      var a, b, c := clock[k], clock[i], clock[j];
      assert Calls(clock, at) == [a] + [a] + [b] + [c];
      ReturnBreaksBound(w, a, b, c);
    }
  }
}
