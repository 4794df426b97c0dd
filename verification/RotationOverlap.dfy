/**
  Any number of rotations in flight at once, one lock acquisition at a time. Between the moment a rotation has verified
  its record against the current MLS key and the moment it swaps `mls_keystore` it is pending. In every interleaving
  the published log stays a chain exactly as long as no two rotations are pending together.
 */
module RotationOverlap {
  import opened Bytes
  import opened Signature
  import opened RotationRecord
  import opened Rotation
  import opened RotationMirror
  import opened RotationSteps

  datatype Crowd = Crowd(core: Core, flights: map<nat, Progress>)
  {
    /** Rotation `id` has verified its record and not yet published it. */
    predicate Holding(id: nat) {
      id in flights && flights[id].Verified?
    }

    /** Rotation `id` has published its record and not yet swapped `mls_keystore`. */
    predicate Lagging(id: nat) {
      id in flights && (flights[id].Published? || flights[id].Built?)
    }

    predicate Pending(id: nat) {
      Holding(id) || Lagging(id)
    }
  }

  /** One step: a reader takes a lock, a rotation is called, or a rotation in flight takes its next lock. */
  ghost predicate Moves(ed: Ed25519, s: Crowd, t: Crowd) {
    || t == s
    || (exists id: nat, a: Attempt :: Starts(s, t, id, a))
    || (exists id: nat :: Advances(ed, s, t, id))
  }

  ghost predicate Starts(s: Crowd, t: Crowd, id: nat, a: Attempt) {
    (id in s.flights ==> s.flights[id].Resting?) && t == s.(flights := s.flights[id := Called(a)])
  }

  ghost predicate Advances(ed: Ed25519, s: Crowd, t: Crowd, id: nat) {
    && id in s.flights && !s.flights[id].Resting?
    && var (core, progress) := Advance(ed, s.core, s.flights[id]);
    t == Crowd(core, s.flights[id := progress])
  }

  /** A run from a core whose log is a chain that ends in the MLS key, with no rotation in flight. */
  ghost predicate CrowdRun(ed: Ed25519, origin: Bytes32, run: seq<Crowd>) {
    && run != []
    && Chain(ed, origin, run[0].core.log) && run[0].core.mls.key == CurrentKey(origin, run[0].core.log)
    && run[0].flights == map[]
    && forall i :: 0 < i < |run| ==> Moves(ed, run[i - 1], run[i])
  }

  /** Two rotations are pending together. */
  ghost predicate Overlap(s: Crowd) {
    exists a, b :: a != b && s.Pending(a) && s.Pending(b)
  }

  ghost predicate GoodRecord(ed: Ed25519, r: Record) {
    r.version == AUTHORIZATION_WIRE_VERSION && Refused(ed, r).None?
  }

  /** What pending rotations have left behind; without any lagging one the MLS key is that of the log. */
  ghost predicate Fits(ed: Ed25519, origin: Bytes32, s: Crowd) {
    var current, key := CurrentKey(origin, s.core.log), s.core.mls.key;
    && Chain(ed, origin, s.core.log)
    && (forall id :: s.Holding(id) ==>
          var p := s.flights[id];
          GoodRecord(ed, p.record) && p.record.oldKey == key && p.record.newKey == p.artifact.newKey)
    && (forall id :: s.Lagging(id) ==>
          var p := s.flights[id];
          && p.artifact.newKey == current && key != current
          && (p.Published? ==> ed.isKey(current)) && (p.Built? ==> p.store.key == current))
    && (forall a, b :: s.Lagging(a) && s.Lagging(b) ==> a == b)
    && ((forall id :: !s.Lagging(id)) ==> key == current)
  }

  /** Steps of one rotation leave the progress of every other one. */
  lemma OthersStay(ed: Ed25519, s: Crowd, t: Crowd, id: nat)
    requires Advances(ed, s, t, id)
    ensures forall other: nat :: other != id ==>
              && (s.Holding(other) <==> t.Holding(other)) && (s.Lagging(other) <==> t.Lagging(other))
              && (s.Pending(other) ==> t.flights[other] == s.flights[other])
  {
  }

  lemma OnlyPending(s: Crowd, id: nat)
    requires !Overlap(s) && s.Pending(id)
    ensures forall other :: s.Holding(other) ==> other == id
    ensures forall other :: s.Lagging(other) ==> other == id
  {
    forall other | s.Holding(other) || s.Lagging(other)
      ensures other == id
    {
      assert s.Pending(other) && s.Pending(id);
    }
  }

  /** Publishing a held record that nobody else is pending with. */
  lemma PublishKeepsFit(ed: Ed25519, origin: Bytes32, s: Crowd, t: Crowd, id: nat)
    requires Fits(ed, origin, s) && !Overlap(s) && s.Holding(id) && Advances(ed, s, t, id)
    ensures Fits(ed, origin, t)
  {
    OthersStay(ed, s, t, id);
    OnlyPending(s, id);
    assert forall other :: !s.Lagging(other);
    ChainGrows(ed, origin, s.core.log, s.flights[id].record);
    assert t.Lagging(id);
  }

  lemma PrepareKeepsFit(ed: Ed25519, origin: Bytes32, s: Crowd, t: Crowd, id: nat)
    requires Fits(ed, origin, s) && Advances(ed, s, t, id) && (s.flights[id].Called? || s.flights[id].Rotated?)
    ensures Fits(ed, origin, t)
  {
    OthersStay(ed, s, t, id);
    assert t.core == s.core && !t.Lagging(id) && !s.Pending(id);
    assert forall other :: t.Lagging(other) <==> s.Lagging(other);
  }

  lemma BuildKeepsFit(ed: Ed25519, origin: Bytes32, s: Crowd, t: Crowd, id: nat)
    requires Fits(ed, origin, s) && Advances(ed, s, t, id) && s.flights[id].Published?
    ensures Fits(ed, origin, t)
  {
    OthersStay(ed, s, t, id);
    assert s.Lagging(id) && t.core == s.core && t.flights[id].Built? && t.Lagging(id);
    assert forall other :: t.Lagging(other) <==> s.Lagging(other);
  }

  lemma SwapKeepsFit(ed: Ed25519, origin: Bytes32, s: Crowd, t: Crowd, id: nat)
    requires Fits(ed, origin, s) && !Overlap(s) && Advances(ed, s, t, id) && s.flights[id].Built?
    ensures Fits(ed, origin, t)
  {
    OthersStay(ed, s, t, id);
    assert s.Pending(id) && !t.Pending(id);
    OnlyPending(s, id);
    assert forall other :: !t.Lagging(other) && !t.Holding(other);
  }

  lemma CatchUpKeepsFit(ed: Ed25519, origin: Bytes32, s: Crowd, t: Crowd, id: nat)
    requires Fits(ed, origin, s) && Advances(ed, s, t, id)
    requires s.flights[id].MlsSwapped? || s.flights[id].KeystoreSwapped?
    ensures Fits(ed, origin, t)
  {
    OthersStay(ed, s, t, id);
    assert t.core.log == s.core.log && t.core.mls == s.core.mls && !s.Pending(id) && !t.Pending(id);
    assert forall other :: t.Lagging(other) <==> s.Lagging(other);
  }

  lemma StepKeepsFit(ed: Ed25519, origin: Bytes32, s: Crowd, t: Crowd)
    requires Fits(ed, origin, s) && !Overlap(s) && Moves(ed, s, t)
    ensures Fits(ed, origin, t)
  {
    if exists id: nat :: Advances(ed, s, t, id) {
      var id: nat :| Advances(ed, s, t, id);
      match s.flights[id]
      case Called(_) => PrepareKeepsFit(ed, origin, s, t, id);
      case Rotated(_, _, _) => PrepareKeepsFit(ed, origin, s, t, id);
      case Verified(_, _, _, _) => PublishKeepsFit(ed, origin, s, t, id);
      case Published(_, _, _) => BuildKeepsFit(ed, origin, s, t, id);
      case Built(_, _, _, _) => SwapKeepsFit(ed, origin, s, t, id);
      case MlsSwapped(_, _, _, _) => CatchUpKeepsFit(ed, origin, s, t, id);
      case KeystoreSwapped(_, _, _) => CatchUpKeepsFit(ed, origin, s, t, id);
    } else if t != s {
      StartKeepsFit(ed, origin, s, t);
    }
  }

  lemma StartKeepsFit(ed: Ed25519, origin: Bytes32, s: Crowd, t: Crowd)
    requires Fits(ed, origin, s) && exists id: nat, a: Attempt :: Starts(s, t, id, a)
    ensures Fits(ed, origin, t)
  {
    var id: nat, a :| Starts(s, t, id, a);
    assert forall other :: (t.Holding(other) <==> s.Holding(other)) && (t.Lagging(other) <==> s.Lagging(other));
    assert forall other :: t.Pending(other) ==> t.flights[other] == s.flights[other];
  }

  lemma {:induction false} RunKeepsFit(ed: Ed25519, origin: Bytes32, run: seq<Crowd>, i: nat)
    requires CrowdRun(ed, origin, run) && i < |run|
    requires forall k :: 0 <= k < i ==> !Overlap(run[k])
    ensures Fits(ed, origin, run[i])
  {
    if i > 0 {
      RunKeepsFit(ed, origin, run, i - 1);
      assert Moves(ed, run[i - 1], run[i]);
      StepKeepsFit(ed, origin, run[i - 1], run[i]);
    }
  }

  /**
    In every interleaving of any number of rotations without an earlier overlap, the log is a chain, and it ends in the
    MLS key whenever no rotation is pending.
   */
  lemma PendingApartKeepsChain(ed: Ed25519, origin: Bytes32, run: seq<Crowd>, i: nat)
    requires CrowdRun(ed, origin, run) && i < |run|
    requires forall k :: 0 <= k < i ==> !Overlap(run[k])
    ensures Chain(ed, origin, run[i].core.log)
    ensures (forall id :: !run[i].Pending(id)) ==> run[i].core.mls.key == CurrentKey(origin, run[i].core.log)
  {
    RunKeepsFit(ed, origin, run, i);
    if forall id :: !run[i].Pending(id) {
      forall id
        ensures !run[i].Lagging(id)
      {
        assert !run[i].Pending(id);
      }
    }
  }

  // ----- An overlap always forks the log -----

  /** No rotation becomes pending: those that are only go on. */
  ghost predicate OnlyGoesOn(s: Crowd, t: Crowd) {
    forall id :: t.Pending(id) ==> s.Pending(id)
  }

  ghost predicate Settles(run: seq<Crowd>, i: nat, j: nat)
    requires j < |run|
  {
    forall k :: i < k <= j ==> OnlyGoesOn(run[k - 1], run[k])
  }

  /** One record is held, from a key that the log has left. */
  ghost predicate Stale(ed: Ed25519, origin: Bytes32, s: Crowd, a: nat) {
    && s.Holding(a) && GoodRecord(ed, s.flights[a].record)
    && s.flights[a].record.oldKey != CurrentKey(origin, s.core.log)
    && forall id :: s.Holding(id) ==> id == a
  }

  /** Two records are held from one key. */
  ghost predicate Rivals(ed: Ed25519, s: Crowd, a: nat, b: nat) {
    && a != b && s.Holding(a) && s.Holding(b)
    && GoodRecord(ed, s.flights[a].record) && GoodRecord(ed, s.flights[b].record)
    && s.flights[a].record.oldKey == s.flights[b].record.oldKey
    && forall id :: s.Holding(id) ==> id == a || id == b
  }

  ghost predicate Doomed(ed: Ed25519, origin: Bytes32, s: Crowd) {
    || !Chain(ed, origin, s.core.log)
    || (exists a :: Stale(ed, origin, s, a))
    || (exists a, b :: Rivals(ed, s, a, b))
  }

  /** The first overlap: one rotation became pending while one was. */
  lemma FirstOverlapDooms(ed: Ed25519, origin: Bytes32, s: Crowd, t: Crowd)
    requires !Overlap(s) && Overlap(t) && Moves(ed, s, t) && Fits(ed, origin, t)
    ensures Doomed(ed, origin, t)
  {
    var id := OneMover(ed, s, t);
    var a, b :| a != b && t.Pending(a) && t.Pending(b);
    assert a == id || b == id;
    forall other | t.Holding(other) || t.Lagging(other)
      ensures other == a || other == b
    {
      assert t.Pending(other);
    }
    if t.Lagging(a) {
      assert Stale(ed, origin, t, b);
    } else if t.Lagging(b) {
      assert Stale(ed, origin, t, a);
    } else {
      assert Rivals(ed, t, a, b);
    }
  }

  /** At most one rotation becomes pending in a step. */
  lemma OneMover(ed: Ed25519, s: Crowd, t: Crowd) returns (id: nat)
    requires Moves(ed, s, t)
    ensures forall other: nat :: other != id && t.Pending(other) ==> s.Pending(other)
  {
    id := 0;
    if exists mover: nat :: Advances(ed, s, t, mover) {
      id :| Advances(ed, s, t, id);
      OthersStay(ed, s, t, id);
    } else if t != s {
      var a;
      id, a :| Starts(s, t, id, a);
    }
  }

  lemma BrokenLink(ed: Ed25519, origin: Bytes32, log: seq<seq<Byte>>, r: Record)
    requires WellFormed(r) && r.oldKey != CurrentKey(origin, log)
    ensures !Chain(ed, origin, log + [EntryBytes(r)])
  {
    var longer := log + [EntryBytes(r)];
    DecodeEncoded(r);
    assert KeyAt(origin, longer, |log|) == KeyAt(origin, log, |log|);
    assert !Link(ed, origin, longer, |log|);
  }

  lemma BrokenStays(ed: Ed25519, origin: Bytes32, log: seq<seq<Byte>>, entry: seq<Byte>)
    requires !Chain(ed, origin, log)
    ensures !Chain(ed, origin, log + [entry])
  {
    assert (log + [entry])[..|log|] == log;
    if Chain(ed, origin, log + [entry]) {
      ChainPrefix(ed, origin, log + [entry], |log|);
    }
  }

  lemma PublishKeepsDoom(ed: Ed25519, origin: Bytes32, s: Crowd, t: Crowd, id: nat)
    requires Doomed(ed, origin, s) && s.Holding(id) && Advances(ed, s, t, id)
    ensures Doomed(ed, origin, t)
  {
    var record := s.flights[id].record;
    OthersStay(ed, s, t, id);
    assert !t.Holding(id) && t.core.log == s.core.log + [EntryBytes(record)];
    if !Chain(ed, origin, s.core.log) {
      BrokenStays(ed, origin, s.core.log, EntryBytes(record));
    } else if exists a :: Stale(ed, origin, s, a) {
      BrokenLink(ed, origin, s.core.log, record);
    } else {
      var a, b :| Rivals(ed, s, a, b);
      var left := if id == a then b else a;
      DecodeEncoded(record);
      assert CurrentKey(origin, t.core.log) == record.newKey;
      assert Stale(ed, origin, t, left);
    }
  }

  lemma QuietKeepsDoom(ed: Ed25519, origin: Bytes32, s: Crowd, t: Crowd)
    requires Doomed(ed, origin, s) && t.core.log == s.core.log
    requires forall id :: (t.Holding(id) <==> s.Holding(id)) && (s.Holding(id) ==> t.flights[id] == s.flights[id])
    ensures Doomed(ed, origin, t)
  {
    if Chain(ed, origin, s.core.log) {
      if exists a :: Stale(ed, origin, s, a) {
        var a :| Stale(ed, origin, s, a);
        assert s.Holding(a) && t.Holding(a);
        assert Stale(ed, origin, t, a);
      } else {
        var a, b :| Rivals(ed, s, a, b);
        assert s.Holding(a) && t.Holding(a) && s.Holding(b) && t.Holding(b);
        assert Rivals(ed, t, a, b);
      }
    }
  }

  lemma StepKeepsDoom(ed: Ed25519, origin: Bytes32, s: Crowd, t: Crowd)
    requires Doomed(ed, origin, s) && Moves(ed, s, t) && OnlyGoesOn(s, t)
    ensures Doomed(ed, origin, t)
  {
    if exists id: nat :: Advances(ed, s, t, id) {
      var id: nat :| Advances(ed, s, t, id);
      if s.Holding(id) {
        PublishKeepsDoom(ed, origin, s, t, id);
      } else {
        OthersStay(ed, s, t, id);
        assert t.Pending(id) ==> s.Pending(id);
        assert !t.Holding(id);
        QuietKeepsDoom(ed, origin, s, t);
      }
    } else if t != s {
      var id: nat, a :| Starts(s, t, id, a);
      QuietKeepsDoom(ed, origin, s, t);
    }
  }

  lemma {:induction false} SettlingKeepsDoom(ed: Ed25519, origin: Bytes32, run: seq<Crowd>, i: nat, j: nat)
    requires CrowdRun(ed, origin, run) && i <= j < |run| && Settles(run, i, j) && Doomed(ed, origin, run[i])
    ensures Doomed(ed, origin, run[j])
  {
    if i < j {
      SettlingKeepsDoom(ed, origin, run, i, j - 1);
      assert Moves(ed, run[j - 1], run[j]) && OnlyGoesOn(run[j - 1], run[j]);
      StepKeepsDoom(ed, origin, run[j - 1], run[j]);
    }
  }

  lemma {:induction false} SettlingAddsNoOverlap(run: seq<Crowd>, i: nat, j: nat)
    requires i <= j < |run| && Settles(run, i, j) && !Overlap(run[i])
    ensures !Overlap(run[j])
  {
    if i < j {
      SettlingAddsNoOverlap(run, i, j - 1);
      assert OnlyGoesOn(run[j - 1], run[j]);
    }
  }

  /**
    The condition is exact. Take any moment of a run before which no two rotations were pending together, and let the
    rotations that are pending publish, in any order and among any other steps: afterwards the log is a chain if and
    only if no two rotations are pending together at that moment.
   */
  lemma ChainIffNoOverlap(ed: Ed25519, origin: Bytes32, run: seq<Crowd>, i: nat, j: nat)
    requires CrowdRun(ed, origin, run) && i <= j < |run|
    requires forall k :: 0 <= k < i ==> !Overlap(run[k])
    requires Settles(run, i, j) && forall id :: !run[j].Holding(id)
    ensures Chain(ed, origin, run[j].core.log) <==> !Overlap(run[i])
  {
    RunKeepsFit(ed, origin, run, i);
    if Overlap(run[i]) {
      assert !Overlap(run[0]) by {
        assert run[0].flights == map[];
      }
      assert Moves(ed, run[i - 1], run[i]);
      FirstOverlapDooms(ed, origin, run[i - 1], run[i]);
      SettlingKeepsDoom(ed, origin, run, i, j);
    } else {
      forall k | i <= k < j
        ensures !Overlap(run[k])
      {
        SettlingAddsNoOverlap(run, i, k);
      }
      RunKeepsFit(ed, origin, run, j);
    }
  }

  // ----- Honest rotations can overlap -----

  /** `two` is a verified record in hand after two reads of the core, with `one` in between. */
  ghost predicate HoldsAfterReads(ed: Ed25519, core: Core, a: Attempt, one: Progress, two: Progress) {
    && one.Rotated? && Advance(ed, core, Called(a)) == (core, one)
    && two.Verified? && Advance(ed, core, one) == (core, two)
    && GoodRecord(ed, two.record) && two.record.oldKey == core.mls.key
  }

  /** After its two reads an honestly answered rotation holds a verified record. */
  lemma HonestHolds(ed: Ed25519, core: Core, a: Attempt) returns (one: Progress, two: Progress)
    requires Honest(ed, a, core.mls.key)
    ensures HoldsAfterReads(ed, core, a, one, two)
  {
    RotationSucceedsIffHonest(ed, core, a);
    one := Advance(ed, core, Called(a)).1;
    two := Advance(ed, core, one).1;
  }

  /** Two calls whose callbacks both answer honestly for the current key, up to the moment both hold a record. */
  lemma HonestCallsOverlap(ed: Ed25519, origin: Bytes32, core: Core, a: Attempt, b: Attempt) returns (run: seq<Crowd>)
    requires Chain(ed, origin, core.log) && core.mls.key == CurrentKey(origin, core.log)
    requires Honest(ed, a, core.mls.key) && Honest(ed, b, core.mls.key)
    ensures CrowdRun(ed, origin, run) && |run| == 7 && run[0].core == core && run[6].core == core
    ensures run[6].flights.Keys == {0, 1} && Rivals(ed, run[6], 0, 1)
    ensures forall k :: 0 <= k < 6 ==> !Overlap(run[k])
  {
    var a1, a2 := HonestHolds(ed, core, a);
    var b1, b2 := HonestHolds(ed, core, b);
    run := BothHold(ed, origin, core, a, b, a1, a2, b1, b2);
  }

  lemma BothHold(ed: Ed25519, origin: Bytes32, core: Core, a: Attempt, b: Attempt, a1: Progress, a2: Progress,
                 b1: Progress, b2: Progress) returns (run: seq<Crowd>)
    requires Chain(ed, origin, core.log) && core.mls.key == CurrentKey(origin, core.log)
    requires HoldsAfterReads(ed, core, a, a1, a2) && HoldsAfterReads(ed, core, b, b1, b2)
    ensures CrowdRun(ed, origin, run) && |run| == 7 && run[0].core == core && run[6].core == core
    ensures run[6].flights.Keys == {0, 1} && Rivals(ed, run[6], 0, 1)
    ensures forall k :: 0 <= k < 6 ==> !Overlap(run[k])
  {
    var s0, s1 := Crowd(core, map[]), Crowd(core, map[0 := Called(a)]);
    TwoStarts(ed, core, a, b);
    run := [s0];
    run := Extend(ed, origin, run, s1);
    run := Extend(ed, origin, run, Pair(core, Called(a), Called(b)));
    NoOverlapInPair(core, Called(a), Called(b));
    StepFirst(ed, core, Called(a), Called(b), a1);
    run := Extend(ed, origin, run, Pair(core, a1, Called(b)));
    NoOverlapInPair(core, a1, Called(b));
    StepSecond(ed, core, a1, Called(b), b1);
    run := Extend(ed, origin, run, Pair(core, a1, b1));
    NoOverlapInPair(core, a1, b1);
    StepFirst(ed, core, a1, b1, a2);
    NoOverlapInPair(core, a2, b1);
    run := Extend(ed, origin, run, Pair(core, a2, b1));
    StepSecond(ed, core, a2, b1, b2);
    run := Extend(ed, origin, run, Pair(core, a2, b2));
    PairOfRivals(ed, core, a2, b2);
  }

  /** One more step at the end of a run without overlap. */
  lemma Extend(ed: Ed25519, origin: Bytes32, run: seq<Crowd>, t: Crowd) returns (longer: seq<Crowd>)
    requires CrowdRun(ed, origin, run) && (forall k :: 0 <= k < |run| - 1 ==> !Overlap(run[k]))
    requires Moves(ed, run[|run| - 1], t) && !Overlap(run[|run| - 1])
    ensures CrowdRun(ed, origin, longer) && |longer| == |run| + 1
    ensures longer[0] == run[0] && longer[|run|] == t
    ensures forall k :: 0 <= k < |longer| - 1 ==> !Overlap(longer[k])
  {
    longer := run + [t];
    forall k | 0 < k < |longer|
      ensures Moves(ed, longer[k - 1], longer[k])
    {
      assert k < |run| ==> Moves(ed, run[k - 1], run[k]);
    }
  }

  /** Two rotations in flight. */
  function Pair(core: Core, p: Progress, q: Progress): Crowd {
    Crowd(core, map[0 := p, 1 := q])
  }

  lemma TwoStarts(ed: Ed25519, core: Core, a: Attempt, b: Attempt)
    ensures var s0, s1 := Crowd(core, map[]), Crowd(core, map[0 := Called(a)]);
            && Moves(ed, s0, s1) && Moves(ed, s1, Pair(core, Called(a), Called(b)))
            && !Overlap(s0) && !Overlap(s1)
  {
    var s0, s1, s2 := Crowd(core, map[]), Crowd(core, map[0 := Called(a)]), Pair(core, Called(a), Called(b));
    assert Starts(s0, s1, 0, a);
    assert s2.flights == s1.flights[1 := Called(b)];
    assert Starts(s1, s2, 1, b);
  }

  lemma StepFirst(ed: Ed25519, core: Core, p: Progress, q: Progress, next: Progress)
    requires !p.Resting? && Advance(ed, core, p) == (core, next)
    ensures Moves(ed, Pair(core, p, q), Pair(core, next, q))
  {
    assert Pair(core, next, q).flights == Pair(core, p, q).flights[0 := next];
    assert Advances(ed, Pair(core, p, q), Pair(core, next, q), 0);
  }

  lemma StepSecond(ed: Ed25519, core: Core, p: Progress, q: Progress, next: Progress)
    requires !q.Resting? && Advance(ed, core, q) == (core, next)
    ensures Moves(ed, Pair(core, p, q), Pair(core, p, next))
  {
    assert Pair(core, p, next).flights == Pair(core, p, q).flights[1 := next];
    assert Advances(ed, Pair(core, p, q), Pair(core, p, next), 1);
  }

  lemma NoOverlapInPair(core: Core, p: Progress, q: Progress)
    requires q.Called? || q.Rotated?
    ensures !Overlap(Pair(core, p, q))
  {
  }

  lemma PairOfRivals(ed: Ed25519, core: Core, p: Progress, q: Progress)
    requires p.Verified? && q.Verified? && GoodRecord(ed, p.record) && GoodRecord(ed, q.record)
    requires p.record.oldKey == q.record.oldKey
    ensures Rivals(ed, Pair(core, p, q), 0, 1)
  {
  }

  function Moved(ed: Ed25519, s: Crowd, id: nat): Crowd
    requires id in s.flights && !s.flights[id].Resting?
  {
    var (core, progress) := Advance(ed, s.core, s.flights[id]);
    Crowd(core, s.flights[id := progress])
  }

  /**
    So the fork is reachable without any misbehaviour: two honestly answered calls whose reads both come before the
    first swap end in a log that is no chain and that no mirror accepts.
   */
  lemma HonestCallsForkLog(ed: Ed25519, origin: Bytes32, core: Core, a: Attempt, b: Attempt) returns (run: seq<Crowd>)
    requires Chain(ed, origin, core.log) && core.mls.key == CurrentKey(origin, core.log)
    requires Honest(ed, a, core.mls.key) && Honest(ed, b, core.mls.key)
    ensures CrowdRun(ed, origin, run) && |run| == 9 && run[0].core == core
    ensures forall o :: !Chain(ed, o, run[8].core.log)
    ensures forall quorum, m, roots | |roots| == |run[8].core.log| ::
              Replay(ed, quorum, m, run[8].core.log, roots).Err?
  {
    var first := HonestCallsOverlap(ed, origin, core, a, b);
    var s7 := Moved(ed, first[6], 0);
    var s8 := Moved(ed, s7, 1);
    assert Advances(ed, first[6], s7, 0) && Advances(ed, s7, s8, 1);
    run := first + [s7, s8];
    assert forall k :: 0 <= k < 7 ==> run[k] == first[k];
    var r, q := first[6].flights[0].record, first[6].flights[1].record;
    var log := run[8].core.log;
    assert log == core.log + [EntryBytes(r)] + [EntryBytes(q)];
    forall o
      ensures !Chain(ed, o, log)
    {
      DecodeEncoded(r);
      BrokenLink(ed, o, core.log + [EntryBytes(r)], q);
    }
    forall quorum, m, roots | |roots| == |log|
      ensures Replay(ed, quorum, m, log, roots).Err?
    {
      MirrorAcceptsIff(ed, quorum, m, log, roots);
    }
  }
}
