/**
  The client-side budget of `rate_limit.rs`: two sliding windows kept as queues. The class is proved against the value
  function `Check`, and runs of `Check` against a limiter that keeps the whole history.
 */
module RateLimit {
  import opened Bytes

  const HOUR: int := 3600
  const DAY: int := 86_400
  const MIN_BACKOFF_SECS: int := 5

  /** Clock readings from which a day can be added without overflow. */
  type Seconds = t: int | 0 <= t < 0x1_0000_0000_0000_0000 - 86_400

  datatype Verdict = Admitted | HourlyLimited(retryAfter: U64) | DailyLimited(retryAfter: U64)

  datatype Budget = Budget(perHour: U32, perDay: U32, hour: seq<Seconds>, day: seq<Seconds>, burstMisses: U32)
  {
    /** Neither queue outgrows its limit. */
    predicate Valid() {
      |hour| <= perHour && |day| <= perDay
    }
  }

  /** `u64::saturating_sub`. */
  function SaturatingSub(a: int, b: int): int {
    if a >= b then a - b else 0
  }

  /** A `while let` loop over the front of a queue: drop the readings that left the window. */
  function Prune(queue: seq<Seconds>, now: Seconds, window: int): (r: seq<Seconds>)
    ensures |r| <= |queue| && (r != [] ==> SaturatingSub(now, r[0]) < window)
  {
    if queue != [] && SaturatingSub(now, queue[0]) >= window then Prune(queue[1..], now, window) else queue
  }

  function Pow2(n: nat): (r: int) {
    if n == 0 then 1 else 2 * Pow2(n - 1)
  }

  /** Five seconds doubled for each miss, at most eight times. */
  function Backoff(misses: nat): (r: int)
    ensures 5 <= r <= 1280
    ensures misses >= 1 ==> r >= 10
  {
    assert Pow2(2) == 4 && Pow2(4) == 4 * Pow2(2) && Pow2(6) == 4 * Pow2(4) && Pow2(8) == 4 * Pow2(6);
    assert Pow2(1) == 2 && Pow2(3) == 2 * Pow2(2) && Pow2(5) == 2 * Pow2(4) && Pow2(7) == 2 * Pow2(6);
    MIN_BACKOFF_SECS * Pow2(if misses < 8 then misses else 8)
  }

  function Max(a: int, b: int): int {
    if a >= b then a else b
  }

  function SaturatingInc(x: U32): U32 {
    if x == 0xFFFF_FFFF then x else x + 1
  }

  /** The hint of an hourly refusal. */
  function HourlyHint(hour: seq<Seconds>, now: Seconds, misses: U32): (r: U64)
    requires hour != [] ==> SaturatingSub(now, hour[0]) < HOUR
  {
    Max(Backoff(misses), if hour == [] then MIN_BACKOFF_SECS else hour[0] + HOUR - now)
  }

  /** The hint of a daily refusal. */
  function DailyHint(day: seq<Seconds>, now: Seconds): (r: U64)
    requires day != [] ==> SaturatingSub(now, day[0]) < DAY
  {
    if day == [] then DAY else day[0] + DAY - now
  }

  /** `check_and_register` as a function of the state and the clock reading. */
  function Check(b: Budget, now: Seconds): (r: (Budget, Verdict))
    ensures b.Valid() ==> r.0.Valid()
    ensures r.0.perHour == b.perHour && r.0.perDay == b.perDay
  {
    var hour, day := Prune(b.hour, now, HOUR), Prune(b.day, now, DAY);
    var pruned := b.(hour := hour, day := day);
    if |hour| >= b.perHour then
      var misses := SaturatingInc(b.burstMisses);
      (pruned.(burstMisses := misses), HourlyLimited(HourlyHint(hour, now, misses)))
    else if |day| >= b.perDay then (pruned, DailyLimited(DailyHint(day, now)))
    else (pruned.(hour := hour + [now], day := day + [now], burstMisses := 0), Admitted)
  }

  /** `ClientBudgetState`. */
  class ClientBudgetState {
    var perHour: U32
    var perDay: U32
    var timestampsHour: seq<Seconds>
    var timestampsDay: seq<Seconds>
    var burstMisses: U32

    ghost function State(): Budget
      reads this
    {
      Budget(perHour, perDay, timestampsHour, timestampsDay, burstMisses)
    }

    constructor WithLimits(perHour: U32, perDay: U32)
      ensures State() == Budget(perHour, perDay, [], [], 0) && State().Valid()
    {
      this.perHour := perHour;
      this.perDay := perDay;
      timestampsHour, timestampsDay := [], [];
      burstMisses := 0;
    }

    /** The length casts to `u32` and the `u64` arithmetic are written out and proved exact. */
    method CheckAndRegister(now: Seconds) returns (v: Verdict)
      requires State().Valid()
      modifies this
      ensures (State(), v) == Check(old(State()), now)
    {
      while timestampsHour != [] && SaturatingSub(now, timestampsHour[0]) >= 3600
        invariant Prune(timestampsHour, now, HOUR) == Prune(old(timestampsHour), now, HOUR)
        invariant State() == old(State()).(hour := timestampsHour)
        decreases |timestampsHour|
      {
        timestampsHour := timestampsHour[1..];
      }
      while timestampsDay != [] && SaturatingSub(now, timestampsDay[0]) >= 86_400
        invariant Prune(timestampsDay, now, DAY) == Prune(old(timestampsDay), now, DAY)
        invariant timestampsHour == Prune(old(timestampsHour), now, HOUR)
        invariant State() == old(State()).(hour := timestampsHour, day := timestampsDay)
        decreases |timestampsDay|
      {
        timestampsDay := timestampsDay[1..];
      }
      assert timestampsDay == Prune(old(timestampsDay), now, DAY);
      if |timestampsHour| % 0x1_0000_0000 >= perHour {
        burstMisses := SaturatingInc(burstMisses);
        var backoff: U64 := Backoff(burstMisses);
        var nextFree: U64 := MIN_BACKOFF_SECS;
        if timestampsHour != [] {
          var oldest: int := timestampsHour[0];
          var leaves: U64 := oldest + 3600;
          nextFree := leaves - now;
        }
        return HourlyLimited(Max(backoff, nextFree));
      }
      if |timestampsDay| % 0x1_0000_0000 >= perDay {
        var retryAfter: U64 := 86_400;
        if timestampsDay != [] {
          var oldest: int := timestampsDay[0];
          var leaves: U64 := oldest + 86_400;
          retryAfter := leaves - now;
        }
        return DailyLimited(retryAfter);
      }
      timestampsHour := timestampsHour + [now];
      timestampsDay := timestampsDay + [now];
      burstMisses := 0;
      return Admitted;
    }
  }

  // ----- Runs and the reference limiter -----

  /** A fresh budget after the calls at the readings `clock`. */
  function After(perHour: U32, perDay: U32, clock: seq<Seconds>): (r: Budget)
    ensures r.Valid() && r.perHour == perHour && r.perDay == perDay
  {
    if clock == [] then Budget(perHour, perDay, [], [], 0)
    else Check(After(perHour, perDay, clock[..|clock| - 1]), clock[|clock| - 1]).0
  }

  /** The verdict of the last call. */
  function LastVerdict(perHour: U32, perDay: U32, clock: seq<Seconds>): Verdict
    requires clock != []
  {
    Check(After(perHour, perDay, clock[..|clock| - 1]), clock[|clock| - 1]).1
  }

  /** The readings at which calls were admitted: the whole history. */
  function Accepted(perHour: U32, perDay: U32, clock: seq<Seconds>): seq<Seconds> {
    if clock == [] then []
    else
      var n := |clock| - 1;
      Accepted(perHour, perDay, clock[..n]) +
      if LastVerdict(perHour, perDay, clock).Admitted? then [clock[n]] else []
  }

  /** The members of a history younger than `window` at `now`. */
  function Younger(history: seq<Seconds>, now: Seconds, window: int): (r: seq<Seconds>)
    ensures |r| <= |history|
  {
    if history == [] then []
    else
      var n := |history| - 1;
      Younger(history[..n], now, window) + if now - history[n] < window then [history[n]] else []
  }

  /** The limiter one would write down: count the whole history. */
  predicate IdealAdmits(perHour: U32, perDay: U32, history: seq<Seconds>, now: Seconds) {
    |Younger(history, now, HOUR)| < perHour && |Younger(history, now, DAY)| < perDay
  }

  ghost predicate Sorted(s: seq<Seconds>) {
    forall i, j :: 0 <= i < j < |s| ==> s[i] <= s[j]
  }

  ghost predicate AtMost(s: seq<Seconds>, now: int) {
    forall i :: 0 <= i < |s| ==> s[i] <= now
  }

  lemma YoungerAppend(s: seq<Seconds>, t: Seconds, now: Seconds, window: int)
    ensures Younger(s + [t], now, window) == Younger(s, now, window) + if now - t < window then [t] else []
  {
    assert (s + [t])[..|s|] == s;
  }

  lemma {:induction false} YoungerFromFront(s: seq<Seconds>, now: Seconds, window: int)
    requires s != []
    ensures Younger(s, now, window) == (if now - s[0] < window then [s[0]] else []) + Younger(s[1..], now, window)
  {
    var n := |s| - 1;
    if n > 0 {
      YoungerFromFront(s[..n], now, window);
      assert s[..n][1..] == s[1..][..n - 1];
    }
  }

  /** Dropping old readings from the front of a sorted queue is filtering it. */
  lemma {:induction false} PruneIsYounger(s: seq<Seconds>, now: Seconds, window: int)
    requires Sorted(s) && AtMost(s, now)
    ensures Prune(s, now, window) == Younger(s, now, window)
  {
    if s != [] {
      if now - s[0] >= window {
        PruneIsYounger(s[1..], now, window);
        YoungerFromFront(s, now, window);
      } else {
        AllYounger(s, now, window);
      }
    }
  }

  lemma {:induction false} AllYounger(s: seq<Seconds>, now: Seconds, window: int)
    requires forall i :: 0 <= i < |s| ==> now - s[i] < window
    ensures Younger(s, now, window) == s
  {
    if s != [] {
      AllYounger(s[..|s| - 1], now, window);
    }
  }

  /** Filtering now what was filtered earlier is filtering now. */
  lemma {:induction false} YoungerTwice(s: seq<Seconds>, earlier: Seconds, now: Seconds, window: int)
    requires earlier <= now
    ensures Younger(Younger(s, earlier, window), now, window) == Younger(s, now, window)
  {
    if s != [] {
      var n := |s| - 1;
      YoungerTwice(s[..n], earlier, now, window);
      if earlier - s[n] < window {
        YoungerAppend(Younger(s[..n], earlier, window), s[n], now, window);
      } else {
        assert Younger(s, earlier, window) == Younger(s[..n], earlier, window);
        assert Younger(s, now, window) == Younger(s[..n], now, window);
      }
    }
  }

  lemma {:induction false} YoungerKeeps(s: seq<Seconds>, now: Seconds, window: int, bound: int)
    requires Sorted(s) && AtMost(s, bound)
    ensures Sorted(Younger(s, now, window)) && AtMost(Younger(s, now, window), bound)
    ensures forall t :: t in Younger(s, now, window) ==> t in s
  {
    if s != [] {
      YoungerKeeps(s[..|s| - 1], now, window, s[|s| - 1]);
    }
  }

  lemma {:induction false} AcceptedSorted(perHour: U32, perDay: U32, clock: seq<Seconds>, bound: int)
    requires Sorted(clock) && AtMost(clock, bound)
    ensures Sorted(Accepted(perHour, perDay, clock)) && AtMost(Accepted(perHour, perDay, clock), bound)
  {
    if clock != [] {
      AcceptedSorted(perHour, perDay, clock[..|clock| - 1], clock[|clock| - 1]);
    }
  }

  /** Both queues, seen at `now` before a call at `now`, are the accepted readings inside the windows. */
  lemma {:induction false} PrunedQueues(perHour: U32, perDay: U32, clock: seq<Seconds>, now: Seconds)
    requires Sorted(clock) && AtMost(clock, now)
    ensures var b, history := After(perHour, perDay, clock), Accepted(perHour, perDay, clock);
            && Prune(b.hour, now, HOUR) == Younger(history, now, HOUR)
            && Prune(b.day, now, DAY) == Younger(history, now, DAY)
    decreases clock, 1
  {
    if clock != [] {
      var prev := clock[|clock| - 1];
      QueuesAreWindows(perHour, perDay, clock);
      var history := Accepted(perHour, perDay, clock);
      AcceptedSorted(perHour, perDay, clock, prev);
      YoungerKeeps(history, prev, HOUR, prev);
      YoungerKeeps(history, prev, DAY, prev);
      PruneIsYounger(Younger(history, prev, HOUR), now, HOUR);
      PruneIsYounger(Younger(history, prev, DAY), now, DAY);
      YoungerTwice(history, prev, now, HOUR);
      YoungerTwice(history, prev, now, DAY);
    }
  }

  /**
    With a clock that never steps back, after every call the two queues are exactly the accepted readings younger than
    an hour and a day.
   */
  lemma {:induction false} QueuesAreWindows(perHour: U32, perDay: U32, clock: seq<Seconds>)
    requires clock != [] && Sorted(clock)
    ensures var b, history, now :=
              After(perHour, perDay, clock), Accepted(perHour, perDay, clock), clock[|clock| - 1];
            b.hour == Younger(history, now, HOUR) && b.day == Younger(history, now, DAY)
    decreases clock, 0
  {
    var n := |clock| - 1;
    PrunedQueues(perHour, perDay, clock[..n], clock[n]);
    LastCall(After(perHour, perDay, clock[..n]), Accepted(perHour, perDay, clock[..n]), clock[n]);
  }

  /** One call on queues that are windows of the history leaves windows of the history with that call. */
  lemma LastCall(b: Budget, history: seq<Seconds>, now: Seconds)
    requires Prune(b.hour, now, HOUR) == Younger(history, now, HOUR)
    requires Prune(b.day, now, DAY) == Younger(history, now, DAY)
    ensures var (after, verdict) := Check(b, now);
            var longer := history + if verdict.Admitted? then [now] else [];
            after.hour == Younger(longer, now, HOUR) && after.day == Younger(longer, now, DAY)
  {
    YoungerAppend(history, now, now, HOUR);
    YoungerAppend(history, now, now, DAY);
    assert history + [] == history;
  }

  /** So every call of such a run is decided as the limiter with the whole history decides it. */
  lemma RefinesIdealLimiter(perHour: U32, perDay: U32, clock: seq<Seconds>)
    requires clock != [] && Sorted(clock)
    ensures var n := |clock| - 1;
            LastVerdict(perHour, perDay, clock).Admitted? <==>
            IdealAdmits(perHour, perDay, Accepted(perHour, perDay, clock[..n]), clock[n])
  {
    PrunedQueues(perHour, perDay, clock[..|clock| - 1], clock[|clock| - 1]);
  }

  // ----- The backoff over a run -----

  /** The seconds of backoff after so many hourly refusals in a row. */
  const BACKOFFS: seq<int> := [5, 10, 20, 40, 80, 160, 320, 640, 1280]

  /** The backoff starts at five seconds, doubles up to eight times and then stays at 1280. */
  lemma BackoffDoubles(misses: nat)
    ensures Backoff(misses) == BACKOFFS[if misses < 8 then misses else 8]
    ensures Backoff(0) == 5
    ensures misses < 8 ==> Backoff(misses + 1) == 2 * Backoff(misses)
    ensures misses >= 8 ==> Backoff(misses) == 1280
  {
    assert Pow2(0) == 1 && Pow2(1) == 2 * Pow2(0) && Pow2(2) == 2 * Pow2(1) && Pow2(3) == 2 * Pow2(2);
    assert Pow2(4) == 2 * Pow2(3) && Pow2(5) == 2 * Pow2(4) && Pow2(6) == 2 * Pow2(5) && Pow2(7) == 2 * Pow2(6);
    assert Pow2(8) == 2 * Pow2(7);
  }

  /** How many hourly refusals a run has seen since its last admission, counted from its verdicts. */
  function RefusalsSinceAdmission(perHour: U32, perDay: U32, clock: seq<Seconds>): nat {
    if clock == [] then 0
    else
      var earlier := RefusalsSinceAdmission(perHour, perDay, clock[..|clock| - 1]);
      match LastVerdict(perHour, perDay, clock)
      case Admitted => 0
      case HourlyLimited(_) => earlier + 1
      case DailyLimited(_) => earlier
  }

  lemma {:induction false} MissesAreRefusals(perHour: U32, perDay: U32, clock: seq<Seconds>)
    ensures var k := RefusalsSinceAdmission(perHour, perDay, clock);
            After(perHour, perDay, clock).burstMisses == if k < 0xFFFF_FFFF then k else 0xFFFF_FFFF
  {
    if clock != [] {
      MissesAreRefusals(perHour, perDay, clock[..|clock| - 1]);
    }
  }

  /**
    The hint of the `k`-th hourly refusal since the last admission, on any clock: the later of the `k`-th backoff and
    the moment the oldest remembered reading leaves the window.
   */
  lemma HintOfKthRefusal(perHour: U32, perDay: U32, clock: seq<Seconds>)
    requires clock != [] && LastVerdict(perHour, perDay, clock).HourlyLimited?
    ensures var n, k := |clock| - 1, RefusalsSinceAdmission(perHour, perDay, clock);
            var remembered := Prune(After(perHour, perDay, clock[..n]).hour, clock[n], HOUR);
            var backoff := BACKOFFS[if k < 8 then k else 8];
            var leaves := if remembered == [] then 5 else remembered[0] + HOUR - clock[n];
            k >= 1 && LastVerdict(perHour, perDay, clock).retryAfter == if backoff >= leaves then backoff else leaves
  {
    var k := RefusalsSinceAdmission(perHour, perDay, clock);
    MissesAreRefusals(perHour, perDay, clock[..|clock| - 1]);
    BackoffDoubles(SaturatingInc(After(perHour, perDay, clock[..|clock| - 1]).burstMisses));
    BackoffDoubles(k);
  }

  /** When the clock does not step back, the oldest remembered reading is the first accepted one inside the hour. */
  lemma OldestRemembered(perHour: U32, perDay: U32, clock: seq<Seconds>)
    requires clock != [] && Sorted(clock)
    ensures var n := |clock| - 1;
            Prune(After(perHour, perDay, clock[..n]).hour, clock[n], HOUR) ==
            Younger(Accepted(perHour, perDay, clock[..n]), clock[n], HOUR)
  {
    PrunedQueues(perHour, perDay, clock[..|clock| - 1], clock[|clock| - 1]);
  }

  // ----- Retry hints -----

  /** A queue pruned at `now` stays as it is until its front leaves the window. */
  lemma PruneAgain(s: seq<Seconds>, now: Seconds, later: Seconds, window: int)
    requires s == Prune(s, now, window)
    ensures s != [] && later < s[0] + window && window > 0 ==> Prune(s, later, window) == s
    ensures s != [] && later >= s[0] + window && window > 0 ==> |Prune(s, later, window)| < |s|
  {
  }

  lemma {:induction false} PruneIdempotent(s: seq<Seconds>, now: Seconds, window: int)
    ensures Prune(Prune(s, now, window), now, window) == Prune(s, now, window)
  {
    if s != [] && SaturatingSub(now, s[0]) >= window {
      PruneIdempotent(s[1..], now, window);
    }
  }

  /**
    The hint of a daily refusal is exact: left alone, the budget admits a retry precisely from `now` plus the hint on.
    A zero limit has nothing to wait for and never admits.
   */
  lemma DailyHintIsExact(b: Budget, now: Seconds, later: Seconds)
    requires b.Valid() && Check(b, now).1.DailyLimited?
    ensures var (after, verdict) := Check(b, now);
            Check(after, later).1.Admitted? <==> b.perDay > 0 && later >= now + verdict.retryAfter
  {
    var after := Check(b, now).0;
    PruneIdempotent(b.hour, now, HOUR);
    PruneIdempotent(b.day, now, DAY);
    PruneAgain(after.day, now, later, DAY);
    assert |Prune(after.hour, later, HOUR)| <= |after.hour| < b.perHour;
  }

  /**
    The hint of an hourly refusal suffices: with a positive hourly limit a retry from `now` plus the hint on passes the
    hourly check, so it is admitted unless the daily limit stops it.
   */
  lemma HourlyHintSuffices(b: Budget, now: Seconds, later: Seconds)
    requires b.Valid() && Check(b, now).1.HourlyLimited?
    requires later >= now + Check(b, now).1.retryAfter
    ensures Check(Check(b, now).0, later).1.HourlyLimited? <==> b.perHour == 0
  {
    var after := Check(b, now).0;
    PruneIdempotent(b.hour, now, HOUR);
    PruneAgain(after.hour, now, later, HOUR);
  }

  /** With a clock that never steps back, hourly hints lie in 10..=3600 and daily hints in 1..=86400. */
  lemma HintBounds(perHour: U32, perDay: U32, clock: seq<Seconds>)
    requires clock != [] && Sorted(clock)
    ensures match LastVerdict(perHour, perDay, clock)
            case Admitted => true
            case HourlyLimited(r) => 10 <= r <= HOUR
            case DailyLimited(r) => 1 <= r <= DAY
  {
    var n := |clock| - 1;
    var now, history := clock[n], Accepted(perHour, perDay, clock[..n]);
    PrunedQueues(perHour, perDay, clock[..n], now);
    AcceptedSorted(perHour, perDay, clock[..n], now);
    YoungerKeeps(history, now, HOUR, now);
    YoungerKeeps(history, now, DAY, now);
    HintsBoundedIff(After(perHour, perDay, clock[..n]), now);
  }

  /** On any clock hints have their lower bounds, and exceed a window exactly when the oldest reading lies ahead. */
  lemma HintsBoundedIff(b: Budget, now: Seconds)
    ensures var hour, day := Prune(b.hour, now, HOUR), Prune(b.day, now, DAY);
            match Check(b, now).1
            case Admitted => true
            case HourlyLimited(r) => r >= 10 && (r <= HOUR <==> hour == [] || hour[0] <= now)
            case DailyLimited(r) => r >= 1 && (r <= DAY <==> day == [] || day[0] <= now)
  {
  }
}
