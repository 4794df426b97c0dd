/** The session lifecycle of `lifecycle.rs`: wipe on focus loss, lock, debugger, or an elapsed background timer. */
module Lifecycle {
  import opened Bytes

  datatype Event = Background | Foreground | Inactive | ScreenLocked | Debugger | HeartbeatTick

  /** One call of `on_event`: the event, the time and the background grace period passed with it. */
  datatype Occurrence = Occurrence(event: Event, now: nat, grace: nat)

  datatype State<S> = State(session: Option<S>, lastHeartbeatAt: nat, backgroundWipeAt: Option<nat>)
  {
    predicate IsLive() {
      session.Some?
    }

    function Wiped(): State<S> {
      this.(session := None, backgroundWipeAt := None)
    }
  }

  /** `on_event` as a function of the state. */
  function Step<S>(s: State<S>, o: Occurrence): (State<S>, bool) {
    match o.event
    case Background => (s.(backgroundWipeAt := Some(o.now + o.grace)), false)
    case Foreground => (s.(backgroundWipeAt := None), false)
    case Inactive => (s.Wiped(), true)
    case ScreenLocked => (s.Wiped(), true)
    case Debugger => (s.Wiped(), true)
    case HeartbeatTick =>
      var ticked := s.(lastHeartbeatAt := o.now);
      if s.backgroundWipeAt.Some? && o.now >= s.backgroundWipeAt.value then (ticked.Wiped(), true) else (ticked, false)
  }

  /** `SessionState`. */
  class SessionState<S> {
    var session: Option<S>
    var lastHeartbeatAt: nat
    var backgroundWipeAt: Option<nat>

    ghost function Value(): State<S>
      reads this
    {
      State(session, lastHeartbeatAt, backgroundWipeAt)
    }

    constructor (session: S, now: nat)
      ensures Value() == State(Some(session), now, None)
    {
      this.session := Some(session);
      lastHeartbeatAt := now;
      backgroundWipeAt := None;
    }

    method IsLive() returns (live: bool)
      ensures live <==> Value().IsLive()
    {
      live := session.Some?;
    }

    method Wipe()
      modifies this
      ensures Value() == old(Value()).Wiped()
    {
      session := None;
      backgroundWipeAt := None;
    }

    method OnEvent(event: Event, now: nat, grace: nat) returns (wiped: bool)
      modifies this
      ensures (Value(), wiped) == Step(old(Value()), Occurrence(event, now, grace))
      ensures old(session.Some?) ==> (wiped <==> session.None?)
      ensures old(session.None?) ==> session.None?
    {
      match event {
        case Background =>
          backgroundWipeAt := Some(now + grace);
          return false;
        case Foreground =>
          backgroundWipeAt := None;
          return false;
        case Inactive =>
          Wipe();
          return true;
        case ScreenLocked | Debugger =>
          Wipe();
          return true;
        case HeartbeatTick =>
          lastHeartbeatAt := now;
          if backgroundWipeAt.Some? {
            if now >= backgroundWipeAt.value {
              Wipe();
              return true;
            }
          }
          return false;
      }
    }
  }

  /** A new session after the events of a trace. */
  function After<S>(session: S, start: nat, trace: seq<Occurrence>): State<S> {
    if trace == [] then State(Some(session), start, None)
    else Step(After(session, start, trace[..|trace| - 1]), trace[|trace| - 1]).0
  }

  /** The timer running just before event `i` was set by the Background event `j`: no timer event lies between. */
  ghost predicate TimerSetAt(trace: seq<Occurrence>, j: int, i: int) {
    && 0 <= j < i <= |trace|
    && trace[j].event.Background?
    && forall k :: j < k < i ==> !trace[k].event.Background? && !trace[k].event.Foreground?
  }

  /** Event `i` ends the session: a lock-like event, or a tick at or past the deadline of the running timer. */
  ghost predicate Ends(trace: seq<Occurrence>, i: int)
    requires 0 <= i < |trace|
  {
    || trace[i].event in {Inactive, ScreenLocked, Debugger}
    || (trace[i].event.HeartbeatTick? &&
        exists j :: TimerSetAt(trace, j, i) && trace[i].now >= trace[j].now + trace[j].grace)
  }

  /** While the session lives, the pending deadline is that of the latest Background not cancelled by a Foreground. */
  ghost predicate Pending<S>(s: State<S>, trace: seq<Occurrence>) {
    match s.backgroundWipeAt
    case None => forall j :: !TimerSetAt(trace, j, |trace|)
    case Some(at) => exists j :: TimerSetAt(trace, j, |trace|) && at == trace[j].now + trace[j].grace
  }

  lemma TimerUnique(trace: seq<Occurrence>, j: int, k: int, i: int)
    requires TimerSetAt(trace, j, i) && TimerSetAt(trace, k, i)
    ensures j == k
  {
  }

  lemma PendingStep<S>(s: State<S>, trace: seq<Occurrence>, o: Occurrence)
    requires s.IsLive() && Pending(s, trace) && Step(s, o).0.IsLive()
    ensures Pending(Step(s, o).0, trace + [o])
  {
    var n, longer := |trace|, trace + [o];
    assert |longer| == n + 1 && longer[n] == o;
    forall j
      ensures TimerSetAt(longer, j, |longer|) <==>
              if j == n then o.event.Background?
              else TimerSetAt(trace, j, n) && !o.event.Background? && !o.event.Foreground?
    {
      if 0 <= j < n {
        assert forall k :: j <= k < n ==> longer[k] == trace[k];
      }
    }
    if o.event.Background? {
      assert TimerSetAt(longer, n, |longer|);
    } else if s.backgroundWipeAt.Some? && !o.event.Foreground? {
      var j :| TimerSetAt(trace, j, n) && s.backgroundWipeAt.value == trace[j].now + trace[j].grace;
      assert TimerSetAt(longer, j, |longer|) && longer[j] == trace[j];
    }
  }

  lemma EndsPrefix(trace: seq<Occurrence>, o: Occurrence, i: int)
    requires 0 <= i < |trace|
    ensures Ends(trace + [o], i) <==> Ends(trace, i)
  {
    var longer := trace + [o];
    forall j
      ensures TimerSetAt(longer, j, i) <==> TimerSetAt(trace, j, i)
    {
      if 0 <= j < i {
        assert forall k :: j <= k <= i ==> longer[k] == trace[k];
      }
    }
    assert longer[i] == trace[i];
  }

  lemma EndsLast<S>(s: State<S>, trace: seq<Occurrence>, o: Occurrence)
    requires s.IsLive() && Pending(s, trace)
    ensures Step(s, o).0.IsLive() <==> !Ends(trace + [o], |trace|)
  {
    var n, longer := |trace|, trace + [o];
    assert longer[n] == o;
    forall j
      ensures TimerSetAt(longer, j, n) <==> TimerSetAt(trace, j, n)
    {
      if 0 <= j < n {
        assert forall k :: j <= k < n ==> longer[k] == trace[k];
      }
    }
    if s.backgroundWipeAt.Some? {
      var j :| TimerSetAt(trace, j, n) && s.backgroundWipeAt.value == trace[j].now + trace[j].grace;
      assert TimerSetAt(longer, j, n) && longer[j] == trace[j];
      forall k | TimerSetAt(longer, k, n)
        ensures k == j
      {
        TimerUnique(trace, j, k, n);
      }
    }
  }

  /** For every trace, the session is live at the end exactly when no event of the trace ends it. */
  lemma {:induction false} LiveIffNothingEnded<S>(session: S, start: nat, trace: seq<Occurrence>)
    ensures After(session, start, trace).IsLive() <==> forall i :: 0 <= i < |trace| ==> !Ends(trace, i)
    ensures After(session, start, trace).IsLive() ==> Pending(After(session, start, trace), trace)
  {
    if trace != [] {
      var n := |trace| - 1;
      var before, o := trace[..n], trace[n];
      LiveIffNothingEnded(session, start, before);
      assert trace == before + [o];
      var s := After(session, start, before);
      forall i | 0 <= i < n
        ensures Ends(trace, i) <==> Ends(before, i)
      {
        EndsPrefix(before, o, i);
      }
      if s.IsLive() {
        EndsLast(s, before, o);
        if Step(s, o).0.IsLive() {
          PendingStep(s, before, o);
        }
      }
    }
  }

  /** Once wiped, no continuation brings the session back. */
  lemma {:induction false} WipedForever<S>(session: S, start: nat, trace: seq<Occurrence>, more: seq<Occurrence>)
    requires !After(session, start, trace).IsLive()
    ensures !After(session, start, trace + more).IsLive()
  {
    if more == [] {
      assert trace + more == trace;
    } else {
      var n := |more| - 1;
      WipedForever(session, start, trace, more[..n]);
      assert (trace + more)[..|trace| + n] == trace + more[..n];
    }
  }
}
