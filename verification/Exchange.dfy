/**
  payload/sp/Exchange.hh: the two-party rendezvous, as a state machine.

  A step runs from one point where the scheduler may take over to the next. Those points are the
  mutex lock and unlock, `OSSleepThread` and `OSWakeupThread`. A wakeup makes the sleepers runnable,
  and any runnable call, woken or not, may run before the waker continues. `left` and `right` are
  mirror images, so a call carries its side.
 */
module Exchange {
  import opened Wrappers

  datatype Side = Left | Right {
    function Other(): Side {
      if Left? then Right else Left
    }
  }

  datatype Pair<T> = Pair(left: T, right: T) {
    function Get(side: Side): T {
      if side.Left? then left else right
    }

    function Set(side: Side, value: T): Pair<T> {
      if side.Left? then this.(left := value) else this.(right := value)
    }
  }

  /** A value in a slot. The source stores the value alone; whose call offered it is kept for the proofs. */
  datatype Offer<V> = Offer(from: nat, value: V)

  datatype Point<V> =
    | Waiting                  // for the side's mutex
    | Locked                   // mutex held, interrupts not yet off
    | AsleepAlone              // lines 30 and 50: found no partner
    | WokenAlone               // runnable again, about to take the partner's value
    | Rechecking(got: Offer<V>)  // lines 25 and 45: woke the partner, about to look at the own slot
    | AsleepHolding(got: Offer<V>)  // lines 26 and 46: the own value is not taken yet
    | Leaving(got: Offer<V>)   // result in hand, mutex still held
    | Returned(got: Offer<V>)
    | Broken                   // dereferenced an empty slot

  datatype Call<V> = Call(side: Side, value: V, at: Point<V>) {
    predicate Inside() {
      at != Waiting && !at.Returned?
    }

    predicate Asleep() {
      at.AsleepAlone? || at.AsleepHolding?
    }

    function Got(): Option<Offer<V>> {
      if at.Rechecking? || at.AsleepHolding? || at.Leaving? || at.Returned? then Some(at.got) else None
    }
  }

  /** All calls ever made, in order of arrival, and the object's fields. */
  datatype State<V> = State(calls: seq<Call<V>>, owner: Pair<Option<nat>>, slot: Pair<Option<Offer<V>>>)

  datatype Action<V> =
    | Arrive(side: Side, value: V)
    | Lock(id: nat)
    | Enter(id: nat)
    | Recheck(id: nat)
    | Resume(id: nat)
    | Unlock(id: nat)

  function Init<V>(): State<V> {
    State([], Pair(None, None), Pair(None, None))
  }

  predicate Enabled<V>(s: State<V>, a: Action<V>) {
    a.Arrive? ||
    (a.id < |s.calls| &&
     match a
     case Lock(id) => s.calls[id].at == Waiting && s.owner.Get(s.calls[id].side) == None
     case Enter(id) => s.calls[id].at == Locked
     case Recheck(id) => s.calls[id].at.Rechecking?
     case Resume(id) => s.calls[id].at == WokenAlone
     case Unlock(id) => s.calls[id].at.Leaving?)
  }

  /** `OSWakeupThread` on a side's queue: every call asleep there becomes runnable. */
  function Wake<V>(call: Call<V>, side: Side): Call<V> {
    if call.side != side then call
    else if call.at.AsleepAlone? then call.(at := WokenAlone)
    else if call.at.AsleepHolding? then call.(at := Leaving(call.at.got))
    else call
  }

  function Wakeup<V>(calls: seq<Call<V>>, side: Side): (r: seq<Call<V>>)
    ensures |r| == |calls|
  {
    seq(|calls|, i requires 0 <= i < |calls| => Wake(calls[i], side))
  }

  function MoveTo<V>(s: State<V>, id: nat, at: Point<V>): State<V>
    requires id < |s.calls|
  {
    s.(calls := s.calls[id := s.calls[id].(at := at)])
  }

  /** Empties the other side's slot, wakes its queue and goes on at `at`. */
  function Take<V>(s: State<V>, id: nat, at: Point<V>): State<V>
    requires id < |s.calls|
  {
    var other := s.calls[id].side.Other();
    var s' := MoveTo(s, id, at);
    s'.(slot := s.slot.Set(other, None), calls := Wakeup(s'.calls, other))
  }

  function Do<V>(s: State<V>, a: Action<V>): State<V>
    requires Enabled(s, a)
  {
    match a
    case Arrive(side, value) => s.(calls := s.calls + [Call(side, value, Waiting)])
    case Lock(id) => MoveTo(s, id, Locked).(owner := s.owner.Set(s.calls[id].side, Some(id)))
    case Enter(id) =>
      var call := s.calls[id];
      var s' := s.(slot := s.slot.Set(call.side, Some(Offer(id, call.value))));
      var partner := s'.slot.Get(call.side.Other());
      if partner.Some? then Take(s', id, Rechecking(partner.value)) else MoveTo(s', id, AsleepAlone)
    case Recheck(id) =>
      var call := s.calls[id];
      MoveTo(s, id, if s.slot.Get(call.side).Some? then AsleepHolding(call.at.got) else Leaving(call.at.got))
    case Resume(id) =>
      var partner := s.slot.Get(s.calls[id].side.Other());
      if partner.Some? then Take(s, id, Leaving(partner.value)) else MoveTo(s, id, Broken)
    case Unlock(id) =>
      MoveTo(s, id, Returned(s.calls[id].at.got)).(owner := s.owner.Set(s.calls[id].side, None))
  }

  predicate Possible<V>(s: State<V>, actions: seq<Action<V>>)
    decreases |actions|
  {
    actions == [] || (Enabled(s, actions[0]) && Possible(Do(s, actions[0]), actions[1..]))
  }

  function Exec<V>(s: State<V>, actions: seq<Action<V>>): State<V>
    requires Possible(s, actions)
    decreases |actions|
  {
    if actions == [] then s else Exec(Do(s, actions[0]), actions[1..])
  }

  // ----- Who calls with what

  /** A call as its caller makes it. */
  datatype Arrival<V> = Arrival(side: Side, value: V)

  /** The calls made in a run, read off its actions alone. */
  function Arrivals<V>(actions: seq<Action<V>>): seq<Arrival<V>> {
    if actions == [] then []
    else if actions[0].Arrive? then [Arrival(actions[0].side, actions[0].value)] + Arrivals(actions[1..])
    else Arrivals(actions[1..])
  }

  /** Anybody may call at any time. */
  lemma AnyoneMayArrive<V>(s: State<V>, side: Side, value: V)
    ensures Enabled(s, Arrive(side, value))
  {
  }

  /** An arrival adds one call, on its side and with its value; nothing else adds a call or changes what one offers. */
  lemma DoKeepsCalls<V>(s: State<V>, a: Action<V>, id: nat)
    requires Enabled(s, a)
    ensures |Do(s, a).calls| == |s.calls| + if a.Arrive? then 1 else 0
    ensures id < |s.calls| ==>
              Do(s, a).calls[id].side == s.calls[id].side && Do(s, a).calls[id].value == s.calls[id].value
    ensures a.Arrive? ==>
              Do(s, a).calls[|s.calls|].side == a.side && Do(s, a).calls[|s.calls|].value == a.value
  {
  }

  /** The calls of a run are, in order, its arrivals, each with its side and value. */
  lemma {:induction false} RunKeepsCalls<V>(s: State<V>, actions: seq<Action<V>>, id: nat)
    requires Possible(s, actions)
    ensures |Exec(s, actions).calls| == |s.calls| + |Arrivals(actions)|
    ensures id < |s.calls| ==>
              && Exec(s, actions).calls[id].side == s.calls[id].side
              && Exec(s, actions).calls[id].value == s.calls[id].value
    ensures |s.calls| <= id < |s.calls| + |Arrivals(actions)| ==>
              && Exec(s, actions).calls[id].side == Arrivals(actions)[id - |s.calls|].side
              && Exec(s, actions).calls[id].value == Arrivals(actions)[id - |s.calls|].value
    decreases |actions|
  {
    hide Do, Enabled;
    if actions != [] {
      DoKeepsCalls(s, actions[0], id);
      RunKeepsCalls(Do(s, actions[0]), actions[1..], id);
    }
  }

  /** From the start: the k-th call of a run is its k-th arrival. */
  lemma CallsAreArrivals<V>(actions: seq<Action<V>>, id: nat)
    requires Possible(Init(), actions)
    ensures |Exec(Init(), actions).calls| == |Arrivals(actions)|
    ensures id < |Arrivals(actions)| ==>
              && Exec(Init(), actions).calls[id].side == Arrivals(actions)[id].side
              && Exec(Init(), actions).calls[id].value == Arrivals(actions)[id].value
  {
    hide Do, Enabled;
    RunKeepsCalls(Init<V>(), actions, id);
  }

  // ----- The invariant

  function OfferOf<V>(s: State<V>, id: nat): Offer<V>
    requires id < |s.calls|
  {
    Offer(id, s.calls[id].value)
  }

  /** A side's mutex is held by exactly the call inside it, and only that call can have filled the slot. */
  ghost predicate Exclusive<V>(s: State<V>) {
    && (forall i :: 0 <= i < |s.calls| && s.calls[i].Inside() ==> s.owner.Get(s.calls[i].side) == Some(i))
    && ExclusiveOn(s, Left) && ExclusiveOn(s, Right)
  }

  ghost predicate ExclusiveOn<V>(s: State<V>, side: Side) {
    && (s.owner.Get(side).Some? ==>
          var id := s.owner.Get(side).value;
          id < |s.calls| && s.calls[id].side == side && s.calls[id].Inside())
    && (s.slot.Get(side).Some? ==>
          var id := s.slot.Get(side).value.from;
          s.owner.Get(side) == Some(id) && id < |s.calls| && s.slot.Get(side) == Some(OfferOf(s, id)))
  }

  /** What a call's position says about the two slots and about its partner. */
  ghost predicate Placed<V>(s: State<V>, id: nat)
    requires id < |s.calls|
  {
    var call := s.calls[id];
    var own, others := s.slot.Get(call.side), s.slot.Get(call.side.Other());
    match call.at
    case Waiting => true
    case Locked => own == None
    case AsleepAlone => own == Some(OfferOf(s, id)) && others == None
    case WokenAlone =>
      // The call that took our value is still inside, its own value still on offer to us.
      && own == None && others.Some? && others.value.from < |s.calls|
      && (s.calls[others.value.from].at == Rechecking(OfferOf(s, id))
          || s.calls[others.value.from].at == AsleepHolding(OfferOf(s, id)))
    case Rechecking(got) => own.Some? ==> Expects(s, id, got)
    case AsleepHolding(got) => own.Some? && Expects(s, id, got)
    case Leaving(got) => own == None
    case Returned(got) => true
    case Broken => false
  }

  /** `id` took `got`, whose caller was woken and has not yet taken `id`'s value. */
  ghost predicate Expects<V>(s: State<V>, id: nat, got: Offer<V>)
    requires id < |s.calls|
  {
    && got.from < |s.calls| && s.calls[got.from].at == WokenAlone
    && s.calls[got.from].side == s.calls[id].side.Other()
    && s.slot.Get(s.calls[id].side) == Some(OfferOf(s, id))
  }

  /** A value taken belongs to an opposite call, which took or is about to take this call's value. */
  ghost predicate Paired<V>(s: State<V>, id: nat)
    requires id < |s.calls|
  {
    var got := s.calls[id].Got();
    got.Some? ==>
      var partner := got.value.from;
      && partner < |s.calls| && got == Some(OfferOf(s, partner))
      && s.calls[partner].side == s.calls[id].side.Other()
      && (s.calls[partner].Got() == Some(OfferOf(s, id)) || Expects(s, id, got.value))
  }

  ghost predicate Inv<V>(s: State<V>) {
    && Exclusive(s)
    && (forall i :: 0 <= i < |s.calls| ==> Placed(s, i))
    && (forall i :: 0 <= i < |s.calls| ==> Paired(s, i))
  }

  lemma Known<V>(s: State<V>, i: nat)
    requires Inv(s) && i < |s.calls|
    ensures Placed(s, i) && Paired(s, i)
    ensures s.calls[i].Inside() ==> s.owner.Get(s.calls[i].side) == Some(i)
    ensures s.calls[i].Got().Some? ==>
              var p := s.calls[i].Got().value.from; p < |s.calls| && Placed(s, p) && Paired(s, p)
  {
  }

  lemma ArriveKeeps<V>(s: State<V>, side: Side, value: V)
    requires Inv(s)
    ensures Inv(Do(s, Arrive(side, value)))
  {
    var s' := Do(s, Arrive(side, value));
    forall i | 0 <= i < |s'.calls|
      ensures Placed(s', i) && Paired(s', i)
    {
      if i < |s.calls| {
        Known(s, i);
      }
    }
  }

  lemma LockKeeps<V>(s: State<V>, id: nat)
    requires Inv(s) && Enabled(s, Lock(id))
    ensures Inv(Do(s, Lock(id)))
  {
    hide Placed, Paired, Exclusive;
    var s' := Do(s, Lock(id));
    LockExclusive(s, id);
    forall i | 0 <= i < |s'.calls|
      ensures Placed(s', i) && Paired(s', i)
    {
      LockPlaced(s, id, i);
      LockPaired(s, id, i);
    }
  }

  lemma LockExclusive<V>(s: State<V>, id: nat)
    requires Inv(s) && Enabled(s, Lock(id))
    ensures Exclusive(Do(s, Lock(id)))
  {
    hide Paired;
    Known(s, id);
  }

  lemma LockPlaced<V>(s: State<V>, id: nat, i: nat)
    requires Inv(s) && Enabled(s, Lock(id)) && i < |s.calls|
    ensures Placed(Do(s, Lock(id)), i)
  {
    hide Paired;
    Known(s, id);
    Known(s, i);
  }

  lemma LockPaired<V>(s: State<V>, id: nat, i: nat)
    requires Inv(s) && Enabled(s, Lock(id)) && i < |s.calls|
    ensures Paired(Do(s, Lock(id)), i)
  {
    Known(s, id);
    Known(s, i);
  }

  lemma EnterKeeps<V>(s: State<V>, id: nat)
    requires Inv(s) && Enabled(s, Enter(id))
    ensures Inv(Do(s, Enter(id)))
  {
    hide Placed, Paired, Exclusive;
    var s' := Do(s, Enter(id));
    EnterExclusive(s, id);
    forall i | 0 <= i < |s'.calls|
      ensures Placed(s', i) && Paired(s', i)
    {
      if s.slot.Get(s.calls[id].side.Other()) == None {
        EnterAloneAt(s, id, i);
      } else {
        EnterTakingPlaced(s, id, i);
        EnterTakingPaired(s, id, i);
      }
    }
  }

  /** Entering with a partner waiting: it was asleep alone, and nothing but these two calls changes. */
  lemma EnterTakes<V>(s: State<V>, id: nat)
    requires Inv(s) && Enabled(s, Enter(id)) && s.slot.Get(s.calls[id].side.Other()).Some?
    ensures var side := s.calls[id].side;
            var got := s.slot.Get(side.Other()).value;
            var s' := Do(s, Enter(id));
            && got.from < |s.calls| && got.from != id && got == OfferOf(s, got.from)
            && s.calls[got.from].side == side.Other() && s.calls[got.from].at == AsleepAlone
            && s'.slot == s.slot.Set(side, Some(OfferOf(s, id))).Set(side.Other(), None)
            && s'.owner == s.owner
            && s'.calls == s.calls[id := s.calls[id].(at := Rechecking(got))][got.from := s.calls[got.from].(at := WokenAlone)]
  {
    hide Paired;
    var got := s.slot.Get(s.calls[id].side.Other()).value;
    Known(s, id);
    Known(s, got.from);
    var s' := Do(s, Enter(id));
    forall j | 0 <= j < |s.calls| && j != id && j != got.from
      ensures s'.calls[j] == s.calls[j]
    {
      EnterLeaves(s, id, j);
    }
  }

  /** A call that is neither this one nor the partner is not in the partner's queue. */
  lemma EnterLeaves<V>(s: State<V>, id: nat, j: nat)
    requires Inv(s) && Enabled(s, Enter(id)) && s.slot.Get(s.calls[id].side.Other()).Some?
    requires j < |s.calls| && j != id && j != s.slot.Get(s.calls[id].side.Other()).value.from
    ensures Do(s, Enter(id)).calls[j] == s.calls[j]
  {
    hide Paired, Placed;
    Known(s, j);
  }

  lemma EnterExclusive<V>(s: State<V>, id: nat)
    requires Inv(s) && Enabled(s, Enter(id))
    ensures Exclusive(Do(s, Enter(id)))
  {
    if s.slot.Get(s.calls[id].side.Other()).Some? {
      EnterTakes(s, id);
    }
    hide Placed, Paired, Wakeup;
  }

  lemma EnterAloneAt<V>(s: State<V>, id: nat, i: nat)
    requires Inv(s) && Enabled(s, Enter(id)) && i < |s.calls|
    requires s.slot.Get(s.calls[id].side.Other()) == None
    ensures Placed(Do(s, Enter(id)), i)
    ensures Paired(Do(s, Enter(id)), i)
  {
    Known(s, id);
    Known(s, i);
  }

  lemma EnterTakingPlaced<V>(s: State<V>, id: nat, i: nat)
    requires Inv(s) && Enabled(s, Enter(id)) && i < |s.calls|
    requires s.slot.Get(s.calls[id].side.Other()).Some?
    ensures Placed(Do(s, Enter(id)), i)
  {
    hide Do, Paired;
    EnterTakes(s, id);
    Known(s, id);
    Known(s, i);
    Known(s, s.slot.Get(s.calls[id].side.Other()).value.from);
  }

  lemma EnterTakingPaired<V>(s: State<V>, id: nat, i: nat)
    requires Inv(s) && Enabled(s, Enter(id)) && i < |s.calls|
    requires s.slot.Get(s.calls[id].side.Other()).Some?
    ensures Paired(Do(s, Enter(id)), i)
  {
    hide Do;
    EnterTakes(s, id);
    Known(s, id);
    Known(s, i);
    Known(s, s.slot.Get(s.calls[id].side.Other()).value.from);
  }

  lemma RecheckKeeps<V>(s: State<V>, id: nat)
    requires Inv(s) && Enabled(s, Recheck(id))
    ensures Inv(Do(s, Recheck(id)))
  {
    var s' := Do(s, Recheck(id));
    Known(s, id);
    assert Exclusive(s');
    forall i | 0 <= i < |s'.calls|
      ensures Placed(s', i) && Paired(s', i)
    {
      RecheckPlaced(s, id, i);
      RecheckPaired(s, id, i);
    }
  }

  lemma RecheckPlaced<V>(s: State<V>, id: nat, i: nat)
    requires Inv(s) && Enabled(s, Recheck(id)) && i < |s.calls|
    ensures Placed(Do(s, Recheck(id)), i)
  {
    hide Paired;
    Known(s, id);
    Known(s, i);
  }

  lemma RecheckPaired<V>(s: State<V>, id: nat, i: nat)
    requires Inv(s) && Enabled(s, Recheck(id)) && i < |s.calls|
    ensures Paired(Do(s, Recheck(id)), i)
  {
    Known(s, id);
    Known(s, i);
  }

  lemma ResumeKeeps<V>(s: State<V>, id: nat)
    requires Inv(s) && Enabled(s, Resume(id))
    ensures Inv(Do(s, Resume(id)))
  {
    hide Do, Placed, Paired;
    var s' := Do(s, Resume(id));
    ResumeTakes(s, id);
    forall i | 0 <= i < |s'.calls|
      ensures Placed(s', i) && Paired(s', i)
    {
      ResumePlaced(s, id, i);
      ResumePaired(s, id, i);
    }
  }

  /** Resuming after the lone sleep: the partner's value is there, and the partner stops waiting for us. */
  lemma ResumeTakes<V>(s: State<V>, id: nat)
    requires Inv(s) && Enabled(s, Resume(id))
    ensures var side := s.calls[id].side;
            && s.slot.Get(side.Other()).Some?
            && var got := s.slot.Get(side.Other()).value;
            var s' := Do(s, Resume(id));
            && got.from < |s.calls| && got.from != id && got == OfferOf(s, got.from)
            && s.calls[got.from].side == side.Other() && s.calls[got.from].Got() == Some(OfferOf(s, id))
            && (s.calls[got.from].at.Rechecking? || s.calls[got.from].at.AsleepHolding?)
            && s'.slot == s.slot.Set(side.Other(), None)
            && s'.owner == s.owner
            && s'.calls == s.calls[id := s.calls[id].(at := Leaving(got))]
                                  [got.from := Wake(s.calls[got.from], side.Other())]
  {
    Known(s, id);
    var got := s.slot.Get(s.calls[id].side.Other()).value;
    Known(s, got.from);
    var s' := Do(s, Resume(id));
    forall j | 0 <= j < |s.calls| && j != id && j != got.from
      ensures s'.calls[j] == s.calls[j]
    {
      Known(s, j);
    }
  }

  lemma ResumePlaced<V>(s: State<V>, id: nat, i: nat)
    requires Inv(s) && Enabled(s, Resume(id)) && i < |s.calls|
    ensures Placed(Do(s, Resume(id)), i)
  {
    hide Paired;
    hide Do;
    ResumeTakes(s, id);
    Known(s, id);
    Known(s, i);
    Known(s, s.slot.Get(s.calls[id].side.Other()).value.from);
  }

  lemma ResumePaired<V>(s: State<V>, id: nat, i: nat)
    requires Inv(s) && Enabled(s, Resume(id)) && i < |s.calls|
    ensures Paired(Do(s, Resume(id)), i)
  {
    hide Do;
    ResumeTakes(s, id);
    Known(s, id);
    Known(s, i);
    Known(s, s.slot.Get(s.calls[id].side.Other()).value.from);
  }

  lemma UnlockKeeps<V>(s: State<V>, id: nat)
    requires Inv(s) && Enabled(s, Unlock(id))
    ensures Inv(Do(s, Unlock(id)))
  {
    hide Placed, Paired, Exclusive;
    var s' := Do(s, Unlock(id));
    UnlockExclusive(s, id);
    forall i | 0 <= i < |s'.calls|
      ensures Placed(s', i) && Paired(s', i)
    {
      UnlockPlaced(s, id, i);
      UnlockPaired(s, id, i);
    }
  }

  lemma UnlockExclusive<V>(s: State<V>, id: nat)
    requires Inv(s) && Enabled(s, Unlock(id))
    ensures Exclusive(Do(s, Unlock(id)))
  {
    hide Paired;
    Known(s, id);
  }

  lemma UnlockPlaced<V>(s: State<V>, id: nat, i: nat)
    requires Inv(s) && Enabled(s, Unlock(id)) && i < |s.calls|
    ensures Placed(Do(s, Unlock(id)), i)
  {
    hide Paired;
    Known(s, id);
    Known(s, i);
  }

  lemma UnlockPaired<V>(s: State<V>, id: nat, i: nat)
    requires Inv(s) && Enabled(s, Unlock(id)) && i < |s.calls|
    ensures Paired(Do(s, Unlock(id)), i)
  {
    Known(s, id);
    Known(s, i);
  }

  lemma DoKeeps<V>(s: State<V>, a: Action<V>)
    requires Inv(s) && Enabled(s, a)
    ensures Inv(Do(s, a))
  {
    hide Do, Inv;
    match a {
      case Arrive(side, value) => ArriveKeeps(s, side, value);
      case Lock(id) => LockKeeps(s, id);
      case Enter(id) => EnterKeeps(s, id);
      case Recheck(id) => RecheckKeeps(s, id);
      case Resume(id) => ResumeKeeps(s, id);
      case Unlock(id) => UnlockKeeps(s, id);
    }
  }

  lemma {:induction false} RunKeeps<V>(s: State<V>, actions: seq<Action<V>>)
    requires Inv(s) && Possible(s, actions)
    ensures Inv(Exec(s, actions))
    decreases |actions|
  {
    hide Do, Inv;
    if actions != [] {
      DoKeeps(s, actions[0]);
      RunKeeps(Do(s, actions[0]), actions[1..]);
    }
  }

  // ----- Pairing

  /** What a call has taken it keeps, and it is what the call returns. */
  lemma DoKeepsGot<V>(s: State<V>, a: Action<V>, id: nat)
    requires Inv(s) && Enabled(s, a) && id < |s.calls| && s.calls[id].Got().Some?
    ensures id < |Do(s, a).calls| && Do(s, a).calls[id].Got() == s.calls[id].Got()
  {
  }

  lemma {:induction false} RunKeepsGot<V>(s: State<V>, actions: seq<Action<V>>, id: nat)
    requires Inv(s) && Possible(s, actions) && id < |s.calls| && s.calls[id].Got().Some?
    ensures id < |Exec(s, actions).calls| && Exec(s, actions).calls[id].Got() == s.calls[id].Got()
    decreases |actions|
  {
    hide Do, Inv;
    if actions != [] {
      DoKeeps(s, actions[0]);
      DoKeepsGot(s, actions[0], id);
      RunKeepsGot(Do(s, actions[0]), actions[1..], id);
    }
  }

  /** The call whose value a returned call returned. */
  function Partner<V>(s: State<V>, id: nat): nat
    requires id < |s.calls| && s.calls[id].at.Returned?
  {
    s.calls[id].at.got.from
  }

  /**
    In every run, a call that returned has an opposite partner: it returned the value the partner
    offered, and the partner has already taken this call's value, so by `RunKeepsGot` that is what the
    partner returns. No two returned calls share a partner.
   */
  lemma ReturnedCallsPair<V>(actions: seq<Action<V>>, id: nat)
    requires Possible(Init(), actions) && id < |Exec(Init(), actions).calls|
    requires Exec(Init(), actions).calls[id].at.Returned?
    ensures var s := Exec(Init(), actions);
            var partner := Partner(s, id);
            && partner < |s.calls| && s.calls[partner].side == s.calls[id].side.Other()
            && s.calls[id].at == Returned(Offer(partner, s.calls[partner].value))
            && s.calls[partner].Got() == Some(Offer(id, s.calls[id].value))
            && forall other :: 0 <= other < |s.calls| && s.calls[other].at.Returned? && Partner(s, other) == partner ==> other == id
  {
    var s := Exec(Init(), actions);
    RunKeeps(Init<V>(), actions);
    PartnerTook(s, id);
    forall other | 0 <= other < |s.calls| && s.calls[other].at.Returned? && Partner(s, other) == Partner(s, id)
      ensures other == id
    {
      PartnerTook(s, other);
    }
  }

  /**
    The same over what callers asked and got: a call that returned got the value of an opposite arrival,
    no other returned call got that arrival's value, and if the opposite call has returned too, it got
    this call's value.
   */
  lemma ReturnsAreExchanged<V>(actions: seq<Action<V>>, id: nat)
    requires Possible(Init(), actions) && id < |Exec(Init(), actions).calls|
    requires Exec(Init(), actions).calls[id].at.Returned?
    ensures var s, arrivals := Exec(Init(), actions), Arrivals(actions);
            var got := s.calls[id].at.got;
            && |s.calls| == |arrivals| && got.from < |arrivals|
            && arrivals[got.from].side != arrivals[id].side && got.value == arrivals[got.from].value
            && (s.calls[got.from].at.Returned? ==> s.calls[got.from].at.got == Offer(id, arrivals[id].value))
            && forall other :: 0 <= other < |s.calls| && s.calls[other].at.Returned? && s.calls[other].at.got.from == got.from ==> other == id
  {
    hide Do, Enabled, Inv;
    ReturnedCallsPair(actions, id);
    CallsAreArrivals(actions, id);
    CallsAreArrivals(actions, Partner(Exec(Init(), actions), id));
  }

  lemma PartnerTook<V>(s: State<V>, id: nat)
    requires Inv(s) && id < |s.calls| && s.calls[id].at.Returned?
    ensures var partner := Partner(s, id);
            && partner < |s.calls| && s.calls[partner].side == s.calls[id].side.Other()
            && s.calls[id].at.got == OfferOf(s, partner)
            && s.calls[partner].Got() == Some(OfferOf(s, id))
  {
    Known(s, id);
  }

  /** No run dereferences an empty slot, and a slot is empty whenever its mutex is free. */
  lemma NeverBroken<V>(actions: seq<Action<V>>, id: nat, side: Side)
    requires Possible(Init(), actions)
    ensures var s := Exec(Init(), actions);
            && (id < |s.calls| ==> s.calls[id].at != Broken)
            && (id < |s.calls| && s.calls[id].at == WokenAlone ==> s.slot.Get(s.calls[id].side.Other()).Some?)
            && (s.owner.Get(side) == None ==> s.slot.Get(side) == None)
  {
    var s := Exec(Init(), actions);
    RunKeeps(Init<V>(), actions);
    if id < |s.calls| {
      Known(s, id);
    }
  }

  // ----- Progress

  /** The step a call that is neither asleep nor waiting for its mutex can take. */
  function NextStep<V>(id: nat, at: Point<V>): Action<V>
    requires !at.Returned? && at != Broken
  {
    match at
    case Waiting => Lock(id)
    case Locked => Enter(id)
    case Rechecking(_) => Recheck(id)
    case Leaving(_) => Unlock(id)
    case _ => Resume(id)
  }

  /** No wakeup is lost: of two calls inside their critical regions one can go on. */
  lemma InsideTogetherOneRuns<V>(actions: seq<Action<V>>)
    requires Possible(Init(), actions)
    requires Exec(Init(), actions).owner.left.Some? && Exec(Init(), actions).owner.right.Some?
    ensures var s := Exec(Init(), actions);
            var l, r := s.owner.left.value, s.owner.right.value;
            && l < |s.calls| && r < |s.calls|
            && (!s.calls[l].Asleep() || !s.calls[r].Asleep())
            && exists a :: Enabled(s, a) && !a.Arrive? && (a.id == l || a.id == r)
  {
    var s := Exec(Init(), actions);
    RunKeeps(Init<V>(), actions);
    assert Exclusive(s);
    assert s.owner == Pair(Some(s.owner.Get(Left).value), Some(s.owner.Get(Right).value));
    var l, r := s.owner.Get(Left).value, s.owner.Get(Right).value;
    Known(s, l);
    Known(s, r);
    var id := if s.calls[l].Asleep() then r else l;
    assert Enabled(s, NextStep(id, s.calls[id].at));
  }

  /** Steps a call may still need. Every step of a call, and every wakeup, uses some up. */
  function Remaining<V>(at: Point<V>): nat {
    match at
    case Waiting => 6
    case Locked => 5
    case AsleepAlone => 4
    case WokenAlone => 3
    case Rechecking(_) => 3
    case AsleepHolding(_) => 2
    case Leaving(_) => 1
    case Returned(_) => 0
    case Broken => 0
  }

  function Total<V>(calls: seq<Call<V>>): nat {
    if calls == [] then 0 else Remaining(calls[0].at) + Total(calls[1..])
  }

  lemma {:induction false} TotalShrinks<V>(before: seq<Call<V>>, after: seq<Call<V>>, id: nat)
    requires |before| == |after| && id < |before|
    requires forall j :: 0 <= j < |before| ==> Remaining(after[j].at) <= Remaining(before[j].at)
    requires Remaining(after[id].at) < Remaining(before[id].at)
    ensures Total(after) < Total(before)
  {
    if id == 0 {
      TotalNotMore(before[1..], after[1..]);
    } else {
      TotalShrinks(before[1..], after[1..], id - 1);
    }
  }

  lemma {:induction false} TotalNotMore<V>(before: seq<Call<V>>, after: seq<Call<V>>)
    requires |before| == |after|
    requires forall j :: 0 <= j < |before| ==> Remaining(after[j].at) <= Remaining(before[j].at)
    ensures Total(after) <= Total(before)
  {
    if before != [] {
      TotalNotMore(before[1..], after[1..]);
    }
  }

  lemma StepShrinks<V>(s: State<V>, a: Action<V>)
    requires Enabled(s, a) && !a.Arrive?
    ensures Total(Do(s, a).calls) < Total(s.calls)
  {
    TotalShrinks(s.calls, Do(s, a).calls, a.id);
  }

  /** Without new arrivals a run is no longer than the steps its calls still need. */
  lemma {:induction false} RunsEnd<V>(s: State<V>, actions: seq<Action<V>>)
    requires Possible(s, actions)
    requires forall j :: 0 <= j < |actions| ==> !actions[j].Arrive?
    ensures |actions| <= Total(s.calls)
    decreases |actions|
  {
    hide Do;
    if actions != [] {
      StepShrinks(s, actions[0]);
      RunsEnd(Do(s, actions[0]), actions[1..]);
    }
  }

  /** Nothing can move without a new arrival. */
  ghost predicate Quiet<V(!new)>(s: State<V>) {
    forall a :: Enabled(s, a) ==> a.Arrive?
  }

  function Arrived<V>(s: State<V>, side: Side): set<nat> {
    set i | 0 <= i < |s.calls| && s.calls[i].side == side
  }

  function Finished<V>(s: State<V>, side: Side): set<nat> {
    set i | 0 <= i < |s.calls| && s.calls[i].side == side && s.calls[i].at.Returned?
  }

  /** When a run has come to rest, whoever has not returned has no one on the other side to meet. */
  lemma QuietPosition<V(!new)>(s: State<V>, id: nat)
    requires Inv(s) && Quiet(s) && id < |s.calls|
    ensures s.calls[id].at.Returned? || s.calls[id].at == AsleepAlone
         || (s.calls[id].at == Waiting && s.owner.Get(s.calls[id].side).Some?)
  {
    Known(s, id);
    var at := s.calls[id].at;
    assert at.AsleepHolding? ==> Enabled(s, Resume(at.got.from));
    if !at.Returned? {
      assert !Enabled(s, NextStep(id, at));
    }
  }

  lemma QuietOneSided<V(!new)>(s: State<V>, id: nat, other: nat)
    requires Inv(s) && Quiet(s) && id < |s.calls| && other < |s.calls|
    requires s.calls[id].side != s.calls[other].side
    ensures s.calls[id].at.Returned? || s.calls[other].at.Returned?
  {
    QuietPosition(s, id);
    QuietPosition(s, other);
    if !s.calls[id].at.Returned? && !s.calls[other].at.Returned? {
      var l, r := s.owner.Get(s.calls[id].side).value, s.owner.Get(s.calls[other].side).value;
      assert Exclusive(s);
      Known(s, id);
      Known(s, other);
      Known(s, l);
      Known(s, r);
      QuietPosition(s, l);
      QuietPosition(s, r);
    }
  }

  lemma {:induction false} InjectionCounts(f: map<nat, nat>, into: set<nat>)
    requires forall x :: x in f ==> f[x] in into
    requires forall x, y :: x in f && y in f && f[x] == f[y] ==> x == y
    ensures |f.Keys| <= |into|
    decreases |into|
  {
    if f.Keys != {} {
      var x :| x in f;
      var g := map y | y in f && y != x :: f[y];
      assert g.Keys == f.Keys - {x};
      InjectionCounts(g, into - {f[x]});
    }
  }

  /** At rest as many left calls as right calls have returned. */
  lemma QuietCounts<V(!new)>(s: State<V>, side: Side)
    requires Inv(s) && Quiet(s)
    ensures |Finished(s, side)| <= |Finished(s, side.Other())|
  {
    var f := map id | id in Finished(s, side) :: Partner(s, id);
    forall id | id in f
      ensures f[id] in Finished(s, side.Other()) && s.calls[f[id]].Got() == Some(OfferOf(s, id))
    {
      PartnerTook(s, id);
      QuietPosition(s, f[id]);
    }
    InjectionCounts(f, Finished(s, side.Other()));
    assert f.Keys == Finished(s, side);
  }

  /** A run that has come to rest has paired off everyone it could. */
  lemma RestPairsEveryone<V(!new)>(actions: seq<Action<V>>)
    requires Possible(Init(), actions) && Quiet(Exec(Init(), actions))
    ensures var s := Exec(Init(), actions);
            var l, r := |Arrived(s, Left)|, |Arrived(s, Right)|;
            |Finished(s, Left)| == |Finished(s, Right)| == (if l < r then l else r)
  {
    var s := Exec(Init(), actions);
    RunKeeps(Init<V>(), actions);
    QuietCounts(s, Left);
    QuietCounts(s, Right);
    FinishedCount(s, Left);
    FinishedCount(s, Right);
    if Finished(s, Left) != Arrived(s, Left) && Finished(s, Right) != Arrived(s, Right) {
      var i :| i in Arrived(s, Left) && i !in Finished(s, Left);
      var j :| j in Arrived(s, Right) && j !in Finished(s, Right);
      QuietOneSided(s, i, j);
    }
  }

  /** How many of these arrivals are on a side. */
  function OnSide<V>(arrivals: seq<Arrival<V>>, side: Side): nat {
    if arrivals == [] then 0
    else OnSide(arrivals[..|arrivals| - 1], side) + if arrivals[|arrivals| - 1].side == side then 1 else 0
  }

  function IndicesOn<V>(arrivals: seq<Arrival<V>>, side: Side): set<nat> {
    set i | 0 <= i < |arrivals| && arrivals[i].side == side
  }

  lemma {:induction false} OnSideCounts<V>(arrivals: seq<Arrival<V>>, side: Side)
    ensures |IndicesOn(arrivals, side)| == OnSide(arrivals, side)
    decreases |arrivals|
  {
    hide IndicesOn;
    if arrivals == [] {
      IndicesNone(arrivals, side);
    } else {
      IndicesMore(arrivals, side);
      OnSideCounts(arrivals[..|arrivals| - 1], side);
    }
  }

  lemma IndicesNone<V>(arrivals: seq<Arrival<V>>, side: Side)
    requires arrivals == []
    ensures IndicesOn(arrivals, side) == {}
  {
  }

  lemma IndicesMore<V>(arrivals: seq<Arrival<V>>, side: Side)
    requires arrivals != []
    ensures var n := |arrivals| - 1;
            && n !in IndicesOn(arrivals[..n], side)
            && IndicesOn(arrivals, side) == IndicesOn(arrivals[..n], side) + if arrivals[n].side == side then {n} else {}
  {
  }

  /** At rest as many calls of either side have returned as the side with fewer arrivals has. */
  lemma RestReturnsFewer<V(!new)>(actions: seq<Action<V>>)
    requires Possible(Init(), actions) && Quiet(Exec(Init(), actions))
    ensures var s, arrivals := Exec(Init(), actions), Arrivals(actions);
            var l, r := OnSide(arrivals, Left), OnSide(arrivals, Right);
            && |s.calls| == |arrivals|
            && |(set i | 0 <= i < |arrivals| && arrivals[i].side == Left && s.calls[i].at.Returned?)| == (if l < r then l else r)
            && |(set i | 0 <= i < |arrivals| && arrivals[i].side == Right && s.calls[i].at.Returned?)| == (if l < r then l else r)
  {
    hide Do, Enabled, Inv, Quiet;
    var s, arrivals := Exec(Init(), actions), Arrivals(actions);
    RestPairsEveryone(actions);
    CallsAreArrivals(actions, 0);
    forall i | 0 <= i < |arrivals| ensures s.calls[i].side == arrivals[i].side {
      CallsAreArrivals(actions, i);
    }
    forall side: Side
      ensures Arrived(s, side) == IndicesOn(arrivals, side)
      ensures Finished(s, side) == set i | 0 <= i < |arrivals| && arrivals[i].side == side && s.calls[i].at.Returned?
    {
    }
    OnSideCounts(arrivals, Left);
    OnSideCounts(arrivals, Right);
  }

  /** The schedule in which the left of two callers comes first. */
  function Meeting<V>(left: V, right: V): seq<Action<V>> {
    [Arrive(Left, left), Arrive(Right, right), Lock(0), Enter(0), Lock(1), Enter(1), Resume(0), Unlock(0), Recheck(1), Unlock(1)]
  }

  /** Two callers who meet return each other's value. */
  lemma TwoMeet<V>(left: V, right: V)
    ensures Possible(Init(), Meeting(left, right))
    ensures Exec(Init(), Meeting(left, right)).calls ==
            [Call(Left, left, Returned(Offer(1, right))), Call(Right, right, Returned(Offer(0, left)))]
  {
    hide Possible, Exec;
    var s2 := State([Call(Left, left, Waiting), Call(Right, right, Waiting)], Pair(None, None), Pair(None, None));
    var s1 := State([Call(Left, left, Waiting)], Pair(None, None), Pair(None, None));
    BothInside(left, right);
    StepAt(s1, Meeting(left, right), 1, s2);
    StepAt(Init(), Meeting(left, right), 0, s1);
    assert Meeting(left, right)[0..] == Meeting(left, right);
  }

  lemma BothInside<V>(left: V, right: V)
    ensures var s2 := State([Call(Left, left, Waiting), Call(Right, right, Waiting)], Pair(None, None), Pair(None, None));
            && Possible(s2, Meeting(left, right)[2..])
            && Exec(s2, Meeting(left, right)[2..]).calls ==
               [Call(Left, left, Returned(Offer(1, right))), Call(Right, right, Returned(Offer(0, left)))]
  {
    hide Possible, Exec;
    var actions := Meeting(left, right);
    var l, r := Offer(0, left), Offer(1, right);
    var s5 := State([Call(Left, left, AsleepAlone), Call(Right, right, Locked)], Pair(Some(0), Some(1)), Pair(Some(l), None));
    var s4 := State([Call(Left, left, AsleepAlone), Call(Right, right, Waiting)], Pair(Some(0), None), Pair(Some(l), None));
    var s3 := State([Call(Left, left, Locked), Call(Right, right, Waiting)], Pair(Some(0), None), Pair(None, None));
    var s2 := State([Call(Left, left, Waiting), Call(Right, right, Waiting)], Pair(None, None), Pair(None, None));
    BothReturn(left, right);
    StepAt(s4, actions, 4, s5);
    StepAt(s3, actions, 3, s4);
    StepAt(s2, actions, 2, s3);
  }

  lemma BothReturn<V>(left: V, right: V)
    ensures var s5 := State([Call(Left, left, AsleepAlone), Call(Right, right, Locked)],
                            Pair(Some(0), Some(1)), Pair(Some(Offer(0, left)), None));
            && Possible(s5, Meeting(left, right)[5..])
            && Exec(s5, Meeting(left, right)[5..]).calls ==
               [Call(Left, left, Returned(Offer(1, right))), Call(Right, right, Returned(Offer(0, left)))]
  {
    hide Possible, Exec;
    var actions := Meeting(left, right);
    var l, r := Offer(0, left), Offer(1, right);
    var s7 := State([Call(Left, left, Leaving(r)), Call(Right, right, Rechecking(l))], Pair(Some(0), Some(1)), Pair(None, None));
    var s6 := State([Call(Left, left, WokenAlone), Call(Right, right, Rechecking(l))], Pair(Some(0), Some(1)), Pair(None, Some(r)));
    var s5 := State([Call(Left, left, AsleepAlone), Call(Right, right, Locked)], Pair(Some(0), Some(1)), Pair(Some(l), None));
    BothLeave(left, right);
    StepAt(s6, actions, 6, s7);
    StepAt(s5, actions, 5, s6);
  }

  lemma BothLeave<V>(left: V, right: V)
    ensures var s7 := State([Call(Left, left, Leaving(Offer(1, right))), Call(Right, right, Rechecking(Offer(0, left)))],
                            Pair(Some(0), Some(1)), Pair(None, None));
            && Possible(s7, Meeting(left, right)[7..])
            && Exec(s7, Meeting(left, right)[7..]).calls ==
               [Call(Left, left, Returned(Offer(1, right))), Call(Right, right, Returned(Offer(0, left)))]
  {
    hide Possible, Exec;
    var actions := Meeting(left, right);
    var l, r := Offer(0, left), Offer(1, right);
    var s10 := State([Call(Left, left, Returned(r)), Call(Right, right, Returned(l))], Pair(None, None), Pair(None, None));
    var s9 := State([Call(Left, left, Returned(r)), Call(Right, right, Leaving(l))], Pair(None, Some(1)), Pair(None, None));
    var s8 := State([Call(Left, left, Returned(r)), Call(Right, right, Rechecking(l))], Pair(None, Some(1)), Pair(None, None));
    var s7 := State([Call(Left, left, Leaving(r)), Call(Right, right, Rechecking(l))], Pair(Some(0), Some(1)), Pair(None, None));
    NothingLeft(s10, actions[10..]);
    StepAt(s9, actions, 9, s10);
    StepAt(s8, actions, 8, s9);
    StepAt(s7, actions, 7, s8);
  }

  lemma NothingLeft<V>(s: State<V>, actions: seq<Action<V>>)
    requires actions == []
    ensures Possible(s, actions) && Exec(s, actions) == s
  {
  }

  lemma StepAt<V>(s: State<V>, actions: seq<Action<V>>, k: nat, s': State<V>)
    requires k < |actions| && Enabled(s, actions[k]) && Do(s, actions[k]) == s' && Possible(s', actions[k + 1..])
    ensures Possible(s, actions[k..]) && Exec(s, actions[k..]) == Exec(s', actions[k + 1..])
  {
    assert actions[k..][1..] == actions[k + 1..];
  }

  lemma FinishedCount<V>(s: State<V>, side: Side)
    ensures Finished(s, side) <= Arrived(s, side) && |Finished(s, side)| <= |Arrived(s, side)|
    ensures Finished(s, side) != Arrived(s, side) ==> exists i :: i in Arrived(s, side) && i !in Finished(s, side)
  {
    SubsetCount(Finished(s, side), Arrived(s, side));
  }

  lemma SubsetCount(a: set<nat>, b: set<nat>)
    requires a <= b
    ensures |a| <= |b|
  {
    assert b == a + (b - a);
  }
}
