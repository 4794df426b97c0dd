/**
  The chat registries of `ClientCore` (`core.rs`): MLS groups and ratchet states in two maps behind two locks.
  Registering and unregistering take the locks one after the other. A call between its two locks is half done. In
  every interleaving the maps keep agreeing on a chat exactly as long as no registration and no unregistration of it
  are half done together; while no two calls on one chat are, the run is the serial execution of the completed calls.
 */
module Registry {
  import opened Bytes

  type ChatId = Bytes32

  /** The two maps. */
  datatype Maps<G, R> = Maps(groups: map<ChatId, G>, ratchets: map<ChatId, R>)

  /** A call; registering makes a fresh ratchet state. */
  datatype Call<G, R> =
    | Register(chat: ChatId, group: G, ratchet: R)
    | Unregister(chat: ChatId)

  /** What happens under the first lock a call takes. */
  function FirstLock<G, R>(m: Maps<G, R>, call: Call<G, R>): Maps<G, R> {
    match call
    case Register(chat, group, _) => m.(groups := m.groups[chat := group])
    case Unregister(chat) => m.(ratchets := m.ratchets - {chat})
  }

  /** What happens under the second. */
  function SecondLock<G, R>(m: Maps<G, R>, call: Call<G, R>): Maps<G, R> {
    match call
    case Register(chat, _, ratchet) => m.(ratchets := m.ratchets[chat := ratchet])
    case Unregister(chat) => m.(groups := m.groups - {chat})
  }

  function Lookup<V>(m: map<ChatId, V>, chat: ChatId): Option<V> {
    if chat in m then Some(m[chat]) else None
  }

  /** What the call returns, given the maps before its second lock. */
  function Answer<G, R>(m: Maps<G, R>, call: Call<G, R>): Option<G> {
    match call
    case Register(_, _, _) => None
    case Unregister(chat) => Lookup(m.groups, chat)
  }

  /** The maps as fields of the client. */
  class ChatRegistry<G, R> {
    var groups: map<ChatId, G>
    var ratchetStates: map<ChatId, R>

    ghost function Value(): Maps<G, R>
      reads this
    {
      Maps(groups, ratchetStates)
    }

    method RegisterGroup(chat: ChatId, group: G, freshState: R)
      modifies this
      ensures Value() == Apply(old(Value()), Register(chat, group, freshState)).0
    {
      groups := groups[chat := group];
      ratchetStates := ratchetStates[chat := freshState];
    }

    method UnregisterGroup(chat: ChatId) returns (group: Option<G>)
      modifies this
      ensures (Value(), group) == Apply(old(Value()), Unregister(chat))
      ensures group == if chat in old(groups) then Some(old(groups)[chat]) else None
    {
      ratchetStates := ratchetStates - {chat};
      group := if chat in groups then Some(groups[chat]) else None;
      groups := groups - {chat};
    }

    method GetRatchetState(chat: ChatId) returns (state: Option<R>)
      ensures state == Lookup(ratchetStates, chat)
      ensures SameChats(Value()) ==> (state.Some? <==> chat in groups)
    {
      state := if chat in ratchetStates then Some(ratchetStates[chat]) else None;
    }
  }

  /** A whole call with nothing in between: the maps after it and its answer. */
  function Apply<G, R>(m: Maps<G, R>, call: Call<G, R>): (Maps<G, R>, Option<G>) {
    (SecondLock(FirstLock(m, call), call), Answer(FirstLock(m, call), call))
  }

  predicate SameChats<G, R>(m: Maps<G, R>) {
    m.groups.Keys == m.ratchets.Keys
  }

  /** A call that completed, with what it returned. */
  datatype Completed<G, R> = Completed(call: Call<G, R>, answer: Option<G>)

  datatype Flight<G, R> = Flight(call: Call<G, R>, half: bool)

  /** The maps, the calls in flight, any number of them on any chats, and the calls completed so far. */
  datatype System<G, R> = System(maps: Maps<G, R>, flights: map<nat, Flight<G, R>>, done: seq<Completed<G, R>>)
  {
    /** Call `id` is between its two locks, on `chat`. */
    predicate Half(id: nat, chat: ChatId) {
      id in flights && flights[id].half && flights[id].call.chat == chat
    }
  }

  /** One step: a reader takes a lock, a call begins, or a call in flight takes its next lock. */
  ghost predicate Next<G(!new), R(!new)>(s: System<G, R>, t: System<G, R>) {
    || t == s
    || (exists id: nat, call: Call<G, R> :: Begins(s, t, id, call))
    || (exists id: nat :: TakesLock(s, t, id))
  }

  ghost predicate Begins<G, R>(s: System<G, R>, t: System<G, R>, id: nat, call: Call<G, R>) {
    id !in s.flights && t == s.(flights := s.flights[id := Flight(call, false)])
  }

  ghost predicate TakesLock<G, R>(s: System<G, R>, t: System<G, R>, id: nat) {
    && id in s.flights
    && var call := s.flights[id].call;
    if !s.flights[id].half then
      t == s.(maps := FirstLock(s.maps, call), flights := s.flights[id := Flight(call, true)])
    else
      t == System(SecondLock(s.maps, call), s.flights - {id}, s.done + [Completed(call, Answer(s.maps, call))])
  }

  ghost predicate Run<G(!new), R(!new)>(run: seq<System<G, R>>) {
    && run != []
    && SameChats(run[0].maps) && run[0].flights == map[] && run[0].done == []
    && forall i :: 0 < i < |run| ==> Next(run[i - 1], run[i])
  }

  // ----- When the maps keep the same chats -----

  /** The maps agree on whether they hold `chat`. */
  predicate AgreeOn<G, R>(m: Maps<G, R>, chat: ChatId) {
    chat in m.groups <==> chat in m.ratchets
  }

  ghost predicate Quiet<G, R>(s: System<G, R>, chat: ChatId) {
    forall id :: !s.Half(id, chat)
  }

  /** A registration and an unregistration of `chat` are half done together. */
  ghost predicate Clash<G, R>(s: System<G, R>, chat: ChatId) {
    exists a, b :: s.Half(a, chat) && s.Half(b, chat) && s.flights[a].call.Register? && s.flights[b].call.Unregister?
  }

  /** What half-done calls have left behind; without any of them the maps agree. */
  ghost predicate Fits<G, R>(s: System<G, R>, chat: ChatId) {
    && (chat in s.maps.ratchets ==> chat in s.maps.groups)
    && (forall id :: s.Half(id, chat) && s.flights[id].call.Register? ==> chat in s.maps.groups)
    && (forall id :: s.Half(id, chat) && s.flights[id].call.Unregister? ==> chat !in s.maps.ratchets)
    && (Quiet(s, chat) ==> AgreeOn(s.maps, chat))
  }

  /** A lock step changes only its own chat. */
  lemma LocksAreLocal<G, R>(m: Maps<G, R>, call: Call<G, R>, chat: ChatId)
    requires chat != call.chat
    ensures View(FirstLock(m, call), chat) == View(m, chat)
    ensures View(SecondLock(m, call), chat) == View(m, chat)
  {
  }

  /** What a lock step leaves half done: everything that was, without its own call, or with it after a first lock. */
  lemma HalfAfterLock<G, R>(s: System<G, R>, t: System<G, R>, id: nat)
    requires TakesLock(s, t, id)
    ensures forall other, chat ::
              t.Half(other, chat) <==>
              if other == id then !s.flights[id].half && s.flights[id].call.chat == chat else s.Half(other, chat)
  {
  }

  lemma LockKeepsFit<G, R>(s: System<G, R>, t: System<G, R>, id: nat, chat: ChatId)
    requires Fits(s, chat) && !Clash(s, chat) && TakesLock(s, t, id)
    ensures Fits(t, chat)
  {
    HalfAfterLock(s, t, id);
    var call := s.flights[id].call;
    if call.chat != chat {
      LocksAreLocal(s.maps, call, chat);
      assert View(t.maps, chat) == View(s.maps, chat);
      assert forall other :: t.Half(other, chat) <==> s.Half(other, chat);
      assert forall other :: t.Half(other, chat) ==> t.flights[other] == s.flights[other];
    } else if !s.flights[id].half {
      assert t.Half(id, chat);
    } else {
      assert s.Half(id, chat);
      assert forall other :: t.Half(other, chat) ==> s.Half(other, chat) && t.flights[other] == s.flights[other];
    }
  }

  lemma StepKeepsFit<G(!new), R(!new)>(s: System<G, R>, t: System<G, R>, chat: ChatId)
    requires Fits(s, chat) && !Clash(s, chat) && Next(s, t)
    ensures Fits(t, chat)
  {
    if exists id: nat :: TakesLock(s, t, id) {
      var id: nat :| TakesLock(s, t, id);
      LockKeepsFit(s, t, id, chat);
    } else if t != s {
      var id: nat, call :| Begins(s, t, id, call);
      assert forall other :: t.Half(other, chat) <==> s.Half(other, chat);
      assert forall other :: t.Half(other, chat) ==> t.flights[other] == s.flights[other];
    }
  }

  lemma {:induction false} RunKeepsFit<G(!new), R(!new)>(run: seq<System<G, R>>, i: nat, chat: ChatId)
    requires Run(run) && i < |run|
    requires forall k :: 0 <= k < i ==> !Clash(run[k], chat)
    ensures Fits(run[i], chat)
  {
    if i > 0 {
      RunKeepsFit(run, i - 1, chat);
      assert Next(run[i - 1], run[i]);
      StepKeepsFit(run[i - 1], run[i], chat);
    }
  }

  /**
    In every interleaving of any number of calls without an earlier clash on the chat, a chat that has ratchet state
    also has a group, and the maps agree on it whenever no call on it is half done.
   */
  lemma RatchetImpliesGroup<G(!new), R(!new)>(run: seq<System<G, R>>, i: nat, chat: ChatId)
    requires Run(run) && i < |run|
    requires forall k :: 0 <= k < i ==> !Clash(run[k], chat)
    ensures chat in run[i].maps.ratchets ==> chat in run[i].maps.groups
    ensures Quiet(run[i], chat) ==> AgreeOn(run[i].maps, chat)
  {
    RunKeepsFit(run, i, chat);
  }

  /** No call on the chat takes its first lock: half-done calls at most complete. */
  ghost predicate OnlyCompletes<G, R>(s: System<G, R>, t: System<G, R>, chat: ChatId) {
    forall id :: t.Half(id, chat) ==> s.Half(id, chat)
  }

  /** So it is in every step between the moments `i` and `j`. */
  ghost predicate Drains<G, R>(run: seq<System<G, R>>, i: nat, j: nat, chat: ChatId)
    requires j < |run|
  {
    forall k :: i < k <= j ==> OnlyCompletes(run[k - 1], run[k], chat)
  }

  /** After a clash: ratchet state is there or a registration will put it there; the group is gone or will go. */
  ghost predicate Doomed<G, R>(s: System<G, R>, chat: ChatId) {
    && (chat in s.maps.ratchets || exists id :: s.Half(id, chat) && s.flights[id].call.Register?)
    && (chat !in s.maps.groups || exists id :: s.Half(id, chat) && s.flights[id].call.Unregister?)
  }

  lemma StepKeepsDoom<G(!new), R(!new)>(s: System<G, R>, t: System<G, R>, chat: ChatId)
    requires Doomed(s, chat) && Next(s, t) && OnlyCompletes(s, t, chat)
    ensures Doomed(t, chat)
  {
    if exists id: nat :: TakesLock(s, t, id) {
      var id: nat :| TakesLock(s, t, id);
      HalfAfterLock(s, t, id);
      var call := s.flights[id].call;
      assert forall other :: other != id && s.Half(other, chat) ==>
          t.Half(other, chat) && t.flights[other] == s.flights[other];
      assert t.Half(id, chat) <==> call.chat == chat && !s.flights[id].half;
      if call.chat != chat {
        LocksAreLocal(s.maps, call, chat);
        assert View(t.maps, chat) == View(s.maps, chat);
      }
    } else if t != s {
      var id: nat, call :| Begins(s, t, id, call);
      assert forall other :: s.Half(other, chat) ==> t.Half(other, chat) && t.flights[other] == s.flights[other];
    }
  }

  lemma {:induction false} DrainKeepsDoom<G(!new), R(!new)>(run: seq<System<G, R>>, i: nat, j: nat, chat: ChatId)
    requires Run(run) && i <= j < |run| && Drains(run, i, j, chat) && Doomed(run[i], chat)
    ensures Doomed(run[j], chat)
  {
    if i < j {
      DrainKeepsDoom(run, i, j - 1, chat);
      assert Next(run[j - 1], run[j]) && OnlyCompletes(run[j - 1], run[j], chat);
      StepKeepsDoom(run[j - 1], run[j], chat);
    }
  }

  lemma {:induction false} DrainAddsNoClash<G(!new), R(!new)>(run: seq<System<G, R>>, i: nat, j: nat, chat: ChatId)
    requires Run(run) && i <= j < |run| && Drains(run, i, j, chat) && !Clash(run[i], chat)
    ensures !Clash(run[j], chat)
  {
    if i < j {
      DrainAddsNoClash(run, i, j - 1, chat);
      assert Next(run[j - 1], run[j]) && OnlyCompletes(run[j - 1], run[j], chat);
      if Clash(run[j], chat) {
        CompletingAddsNoClash(run[j - 1], run[j], chat);
      }
    }
  }

  lemma CompletingAddsNoClash<G(!new), R(!new)>(s: System<G, R>, t: System<G, R>, chat: ChatId)
    requires Next(s, t) && OnlyCompletes(s, t, chat) && Clash(t, chat)
    ensures Clash(s, chat)
  {
    SameCallWhileHalf(s, t, chat);
    var a, b :| t.Half(a, chat) && t.Half(b, chat) && t.flights[a].call.Register? && t.flights[b].call.Unregister?;
    assert s.Half(a, chat) && s.Half(b, chat);
  }

  lemma SameCallWhileHalf<G(!new), R(!new)>(s: System<G, R>, t: System<G, R>, chat: ChatId)
    requires Next(s, t)
    ensures forall id: nat :: s.Half(id, chat) && t.Half(id, chat) ==> t.flights[id] == s.flights[id]
  {
    if exists id: nat :: TakesLock(s, t, id) {
      var id: nat :| TakesLock(s, t, id);
      HalfAfterLock(s, t, id);
    } else if t != s {
      var id: nat, call :| Begins(s, t, id, call);
    }
  }

  /**
    The condition is exact. Take any moment of a run before which there was no clash on a chat, and let the half-done
    calls on that chat complete, in any order and among any steps on other chats: afterwards the maps agree on the
    chat if and only if there is no clash at that moment. After a clash it has ratchet state and no group.
   */
  lemma AgreeIffNoClash<G(!new), R(!new)>(run: seq<System<G, R>>, i: nat, j: nat, chat: ChatId)
    requires Run(run) && i <= j < |run|
    requires forall k :: 0 <= k < i ==> !Clash(run[k], chat)
    requires Drains(run, i, j, chat) && Quiet(run[j], chat)
    ensures AgreeOn(run[j].maps, chat) <==> !Clash(run[i], chat)
    ensures Clash(run[i], chat) ==> chat in run[j].maps.ratchets && chat !in run[j].maps.groups
  {
    RunKeepsFit(run, i, chat);
    if Clash(run[i], chat) {
      DrainKeepsDoom(run, i, j, chat);
    } else {
      forall k | i <= k < j
        ensures !Clash(run[k], chat)
      {
        DrainAddsNoClash(run, i, k, chat);
      }
      RunKeepsFit(run, j, chat);
    }
  }

  // ----- Two calls, lock by lock -----

  /** The lock that a call with `taken` locks behind it takes next. */
  function NextLock<G, R>(m: Maps<G, R>, call: Call<G, R>, taken: nat): Maps<G, R> {
    if taken == 0 then FirstLock(m, call) else SecondLock(m, call)
  }

  /** Two calls whose four lock steps come in the given order; `true` is a step of `a`. */
  function Play<G, R>(m: Maps<G, R>, a: Call<G, R>, b: Call<G, R>, order: seq<bool>, takenA: nat, takenB: nat)
    : Maps<G, R>
    decreases |order|
  {
    if order == [] then m
    else if order[0] then Play(NextLock(m, a, takenA), a, b, order[1..], takenA + 1, takenB)
    else Play(NextLock(m, b, takenB), a, b, order[1..], takenA, takenB + 1)
  }

  /** The six orders in which two calls can take their locks. */
  predicate Schedule(order: seq<bool>) {
    || order == [true, true, false, false] || order == [false, false, true, true]
    || order == [true, false, true, false] || order == [true, false, false, true]
    || order == [false, true, true, false] || order == [false, true, false, true]
  }

  /** One call completes before the other begins. */
  predicate Apart(order: seq<bool>)
    requires Schedule(order)
  {
    order[0] == order[1]
  }

  /** The four steps written out. */
  lemma PlayOut<G, R>(m: Maps<G, R>, a: Call<G, R>, b: Call<G, R>, order: seq<bool>)
    requires Schedule(order)
    ensures Play(m, a, b, order, 0, 0) ==
            var first, other := if order[0] then a else b, if order[0] then b else a;
            if Apart(order) then Apply(Apply(m, first).0, other).0
            else
              var half := FirstLock(FirstLock(m, first), other);
              if order[0] == order[2] then SecondLock(SecondLock(half, first), other)
              else SecondLock(SecondLock(half, other), first)
  {
    var rest := order[1..];
    assert rest[1..] == order[2..] && order[2..][1..] == order[3..] && |order[3..][1..]| == 0;
    var m1 := NextLock(m, if order[0] then a else b, 0);
    var ta, tb := if order[0] then 1 else 0, if order[0] then 0 else 1;
    assert Play(m, a, b, order, 0, 0) == Play(m1, a, b, rest, ta, tb);
    var m2 := if order[1] then NextLock(m1, a, ta) else NextLock(m1, b, tb);
    var ua, ub := if order[1] then ta + 1 else ta, if order[1] then tb else tb + 1;
    assert Play(m1, a, b, rest, ta, tb) == Play(m2, a, b, order[2..], ua, ub);
    var m3 := if order[2] then NextLock(m2, a, ua) else NextLock(m2, b, ub);
    var va, vb := if order[2] then ua + 1 else ua, if order[2] then ub else ub + 1;
    assert Play(m2, a, b, order[2..], ua, ub) == Play(m3, a, b, order[3..], va, vb);
    var m4 := if order[3] then NextLock(m3, a, va) else NextLock(m3, b, vb);
    assert Play(m3, a, b, order[3..], va, vb) == m4;
  }

  /** A registration and an unregistration of one chat leave the maps agreeing exactly when they do not overlap. */
  lemma RegisterUnregisterAgreeIffApart<G, R>(m: Maps<G, R>, chat: ChatId, group: G, ratchet: R, order: seq<bool>)
    requires AgreeOn(m, chat) && Schedule(order)
    ensures AgreeOn(Play(m, Register(chat, group, ratchet), Unregister(chat), order, 0, 0), chat) <==> Apart(order)
  {
    PlayOut(m, Register(chat, group, ratchet), Unregister(chat), order);
  }

  /** Two registrations leave the group of the later first lock and the ratchet state of the later second lock. */
  lemma RegistrationsOutcome<G, R>(m: Maps<G, R>, chat: ChatId, g: G, r: R, g': G, r': R, order: seq<bool>)
    requires Schedule(order)
    ensures Play(m, Register(chat, g, r), Register(chat, g', r'), order, 0, 0) ==
            Maps(m.groups[chat := if order[0] then g' else g], m.ratchets[chat := if order[3] then r else r'])
  {
    PlayOut(m, Register(chat, g, r), Register(chat, g', r'), order);
  }

  /**
    Two registrations of one chat always leave the maps agreeing; the outcome is that of one of them after the other
    exactly when the call that takes the first of the four locks does not also take the last one.
   */
  lemma RegistrationsSerializeIff<G, R>(m: Maps<G, R>, chat: ChatId, g: G, r: R, g': G, r': R, order: seq<bool>)
    requires Schedule(order) && g != g' && r != r'
    ensures var a, b := Register(chat, g, r), Register(chat, g', r');
            var after := Play(m, a, b, order, 0, 0);
            && AgreeOn(after, chat)
            && ((after == Apply(Apply(m, a).0, b).0 || after == Apply(Apply(m, b).0, a).0) <==> order[0] != order[3])
  {
    RegistrationsOutcome(m, chat, g, r, g', r', order);
    RegistrationsOutcome(m, chat, g, r, g', r', [true, true, false, false]);
    RegistrationsOutcome(m, chat, g, r, g', r', [false, false, true, true]);
    PlayOut(m, Register(chat, g, r), Register(chat, g', r'), [true, true, false, false]);
    PlayOut(m, Register(chat, g, r), Register(chat, g', r'), [false, false, true, true]);
    var after := Play(m, Register(chat, g, r), Register(chat, g', r'), order, 0, 0);
    assert after.groups[chat] == (if order[0] then g' else g) && after.ratchets[chat] == if order[3] then r else r';
  }

  // ----- Serializability -----

  /** The completed calls one after another. */
  function Serial<G, R>(start: Maps<G, R>, done: seq<Completed<G, R>>): Maps<G, R> {
    if done == [] then start else Apply(Serial(start, done[..|done| - 1]), done[|done| - 1].call).0
  }

  /** Every completed call returned what it would have returned in that serial execution. */
  ghost predicate AnswersSerially<G, R>(start: Maps<G, R>, done: seq<Completed<G, R>>) {
    forall i :: 0 <= i < |done| ==> done[i].answer == Apply(Serial(start, done[..i]), done[i].call).1
  }

  /** What the two maps hold for one chat. */
  function View<G, R>(m: Maps<G, R>, chat: ChatId): (Option<G>, Option<R>) {
    (Lookup(m.groups, chat), Lookup(m.ratchets, chat))
  }

  /** No two calls on one chat are half done together. */
  ghost predicate Alone<G, R>(s: System<G, R>) {
    forall a, b, chat :: s.Half(a, chat) && s.Half(b, chat) ==> a == b
  }

  /** Chat by chat the maps are those of the serial execution, except for the half that a half-done call has done. */
  ghost predicate Linear<G, R>(start: Maps<G, R>, s: System<G, R>) {
    var serial := Serial(start, s.done);
    && (forall id, chat :: s.Half(id, chat) ==> View(s.maps, chat) == View(FirstLock(serial, s.flights[id].call), chat))
    && (forall chat :: Quiet(s, chat) ==> View(s.maps, chat) == View(serial, chat))
  }

  ghost predicate Invariant<G, R>(start: Maps<G, R>, s: System<G, R>) {
    Linear(start, s) && AnswersSerially(start, s.done)
  }

  /** What a lock step does to its own chat depends on that chat alone. */
  lemma LocksLookAtOneChat<G, R>(m: Maps<G, R>, n: Maps<G, R>, call: Call<G, R>)
    requires View(m, call.chat) == View(n, call.chat)
    ensures View(FirstLock(m, call), call.chat) == View(FirstLock(n, call), call.chat)
    ensures View(SecondLock(m, call), call.chat) == View(SecondLock(n, call), call.chat)
    ensures Answer(m, call) == Answer(n, call)
  {
  }

  lemma FirstLockKeepsInvariant<G, R>(start: Maps<G, R>, s: System<G, R>, t: System<G, R>, id: nat)
    requires Invariant(start, s) && Alone(t) && TakesLock(s, t, id) && !s.flights[id].half
    ensures Invariant(start, t)
  {
    var call, serial := s.flights[id].call, Serial(start, s.done);
    HalfAfterLock(s, t, id);
    assert t.Half(id, call.chat);
    assert forall other :: s.Half(other, call.chat) ==> t.Half(other, call.chat);
    assert Quiet(s, call.chat);
    LocksLookAtOneChat(s.maps, serial, call);
    forall other, chat | t.Half(other, chat)
      ensures View(t.maps, chat) == View(FirstLock(serial, t.flights[other].call), chat)
    {
      if other != id {
        assert s.Half(other, chat) && chat != call.chat;
        LocksAreLocal(s.maps, call, chat);
      }
    }
    forall chat | Quiet(t, chat)
      ensures View(t.maps, chat) == View(serial, chat)
    {
      assert forall other :: s.Half(other, chat) ==> t.Half(other, chat);
      LocksAreLocal(s.maps, call, chat);
    }
  }

  lemma SecondLockKeepsLinear<G, R>(start: Maps<G, R>, s: System<G, R>, t: System<G, R>, id: nat)
    requires Linear(start, s) && Alone(s) && TakesLock(s, t, id) && s.flights[id].half
    ensures Linear(start, t) && Answer(s.maps, s.flights[id].call) == Apply(Serial(start, s.done), s.flights[id].call).1
  {
    var call, serial := s.flights[id].call, Serial(start, s.done);
    var half := FirstLock(serial, call);
    HalfAfterLock(s, t, id);
    assert s.Half(id, call.chat);
    LocksLookAtOneChat(s.maps, half, call);
    assert t.done[..|s.done|] == s.done;
    var after := Serial(start, t.done);
    assert after == SecondLock(half, call);
    forall other, chat | t.Half(other, chat)
      ensures View(t.maps, chat) == View(FirstLock(after, t.flights[other].call), chat)
    {
      assert s.Half(other, chat) && other != id && chat != call.chat;
      LocksAreLocal(s.maps, call, chat);
      OtherChat(serial, call, chat);
      LocksLookAtOneChat(serial, after, t.flights[other].call);
    }
    forall chat | Quiet(t, chat)
      ensures View(t.maps, chat) == View(after, chat)
    {
      if chat != call.chat {
        assert forall other :: s.Half(other, chat) ==> t.Half(other, chat);
        LocksAreLocal(s.maps, call, chat);
        OtherChat(serial, call, chat);
      }
    }
  }

  lemma OtherChat<G, R>(m: Maps<G, R>, call: Call<G, R>, chat: ChatId)
    requires chat != call.chat
    ensures View(SecondLock(FirstLock(m, call), call), chat) == View(m, chat)
  {
    LocksAreLocal(m, call, chat);
    LocksAreLocal(FirstLock(m, call), call, chat);
  }

  lemma AnswersGrow<G, R>(start: Maps<G, R>, done: seq<Completed<G, R>>, last: Completed<G, R>)
    requires AnswersSerially(start, done) && last.answer == Apply(Serial(start, done), last.call).1
    ensures AnswersSerially(start, done + [last])
  {
    var longer := done + [last];
    forall i | 0 <= i < |longer|
      ensures longer[i].answer == Apply(Serial(start, longer[..i]), longer[i].call).1
    {
      assert longer[..i] == done[..i];
      assert i == |done| ==> done[..i] == done;
    }
  }

  lemma {:induction false} RunKeepsInvariant<G(!new), R(!new)>(run: seq<System<G, R>>, i: nat)
    requires Run(run) && i < |run|
    requires forall k :: 0 <= k <= i ==> Alone(run[k])
    ensures Invariant(run[0].maps, run[i])
  {
    if i > 0 {
      RunKeepsInvariant(run, i - 1);
      var start, s, t := run[0].maps, run[i - 1], run[i];
      assert Next(s, t);
      if exists id: nat :: TakesLock(s, t, id) {
        var id: nat :| TakesLock(s, t, id);
        if s.flights[id].half {
          SecondLockKeepsLinear(start, s, t, id);
          AnswersGrow(start, s.done, Completed(s.flights[id].call, Answer(s.maps, s.flights[id].call)));
        } else {
          FirstLockKeepsInvariant(start, s, t, id);
        }
      } else if t != s {
        var id: nat, call :| Begins(s, t, id, call);
        BeginKeepsInvariant(start, s, t, id, call);
      }
    }
  }

  lemma BeginKeepsInvariant<G, R>(start: Maps<G, R>, s: System<G, R>, t: System<G, R>, id: nat, call: Call<G, R>)
    requires Invariant(start, s) && Begins(s, t, id, call)
    ensures Invariant(start, t)
  {
    assert forall other, chat :: t.Half(other, chat) <==> s.Half(other, chat);
    assert forall other, chat :: t.Half(other, chat) ==> t.flights[other] == s.flights[other];
    assert forall chat :: Quiet(t, chat) <==> Quiet(s, chat);
  }

  lemma {:induction false} SerialKeepsSameChats<G, R>(start: Maps<G, R>, done: seq<Completed<G, R>>)
    requires SameChats(start)
    ensures SameChats(Serial(start, done))
  {
    if done != [] {
      SerialKeepsSameChats(start, done[..|done| - 1]);
    }
  }

  /**
    Serializability: in every interleaving in which no two calls on one chat are half done together, each completed
    call returned what it returns when the completed calls run one after another, and whenever nothing is in flight
    the maps are those of that serial run.
   */
  lemma CallsAreSerializable<G(!new), R(!new)>(run: seq<System<G, R>>, i: nat)
    requires Run(run) && i < |run|
    requires forall k :: 0 <= k <= i ==> Alone(run[k])
    ensures AnswersSerially(run[0].maps, run[i].done)
    ensures run[i].flights == map[] ==> run[i].maps == Serial(run[0].maps, run[i].done) && SameChats(run[i].maps)
  {
    RunKeepsInvariant(run, i);
    var s, serial := run[i], Serial(run[0].maps, run[i].done);
    SerialKeepsSameChats(run[0].maps, s.done);
    if s.flights == map[] {
      assert forall chat :: Quiet(s, chat);
      assert forall chat :: View(s.maps, chat) == View(serial, chat);
      SameViews(s.maps, serial);
    }
  }

  /** The group that the latest call on a chat has left there: that of a registration, none after an unregistration. */
  function LatestGroup<G, R>(start: Maps<G, R>, done: seq<Completed<G, R>>, chat: ChatId): Option<G> {
    if done == [] then if chat in start.groups then Some(start.groups[chat]) else None
    else
      var n := |done| - 1;
      if done[n].call.chat != chat then LatestGroup(start, done[..n], chat)
      else if done[n].call.Register? then Some(done[n].call.group)
      else None
  }

  lemma {:induction false} SerialGroups<G, R>(start: Maps<G, R>, done: seq<Completed<G, R>>, chat: ChatId)
    ensures Lookup(Serial(start, done).groups, chat) == LatestGroup(start, done, chat)
  {
    if done != [] {
      SerialGroups(start, done[..|done| - 1], chat);
    }
  }

  /**
    In every such interleaving an unregistration answers the group of the latest registration of its chat completed
    before it and not unregistered since, and none if there is none.
   */
  lemma UnregistrationAnswersLatest<G(!new), R(!new)>(run: seq<System<G, R>>, i: nat, j: nat)
    requires Run(run) && i < |run| && j < |run[i].done| && run[i].done[j].call.Unregister?
    requires forall k :: 0 <= k <= i ==> Alone(run[k])
    ensures run[i].done[j].answer == LatestGroup(run[0].maps, run[i].done[..j], run[i].done[j].call.chat)
  {
    var done := run[i].done;
    CallsAreSerializable(run, i);
    SerialGroups(run[0].maps, done[..j], done[j].call.chat);
    assert done[j].answer == Apply(Serial(run[0].maps, done[..j]), done[j].call).1;
  }

  lemma SameViews<G, R>(m: Maps<G, R>, n: Maps<G, R>)
    requires forall chat :: View(m, chat) == View(n, chat)
    ensures m == n
  {
    forall chat
      ensures Lookup(m.groups, chat) == Lookup(n.groups, chat) && Lookup(m.ratchets, chat) == Lookup(n.ratchets, chat)
    {
      assert View(m, chat) == View(n, chat);
    }
    SameLookups(m.groups, n.groups);
    SameLookups(m.ratchets, n.ratchets);
  }

  lemma SameLookups<V>(m: map<ChatId, V>, n: map<ChatId, V>)
    requires forall chat :: Lookup(m, chat) == Lookup(n, chat)
    ensures m == n
  {
    forall chat
      ensures chat in m <==> chat in n
      ensures chat in m ==> m[chat] == n[chat]
    {
      assert Lookup(m, chat) == Lookup(n, chat);
    }
  }
}
