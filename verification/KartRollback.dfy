/**
  payload/game/kart/KartRollback.{hh,cc}: the history of a remote player's frames and its rebase onto
  what the server reports. Positions and speeds are reals; rotations are elements of a group.
 */
module KartRollbackModule {
  import opened Bytes
  import opened Wrappers
  import opened CircularBufferModule

  const CAPACITY: nat := 60

  type s16 = x: int | -0x8000 <= x < 0x8000

  function Dec16(x: s16): s16 {
    if x == -0x8000 then 0x7fff else x - 1
  }

  function Inc16(x: s16): s16 {
    if x == 0x7fff then -0x8000 else x + 1
  }

  datatype Vec3 = Vec3(x: real, y: real, z: real) {
    function Minus(v: Vec3): Vec3 {
      Vec3(x - v.x, y - v.y, z - v.z)
    }
  }

  /** Composition and inversion of rotations. */
  datatype Rotations<!R(!new)> = Rotations(compose: (R, R) -> R, invert: R -> R, identity: R) {
    ghost predicate IsGroup() {
      && (forall a, b, c :: compose(compose(a, b), c) == compose(a, compose(b, c)))
      && (forall a :: compose(identity, a) == a == compose(a, identity))
      && (forall a :: compose(invert(a), a) == identity == compose(a, invert(a)))
    }

    /** The rotation that takes `a` to `b`. */
    function Between(a: R, b: R): R {
      compose(invert(a), b)
    }
  }

  datatype Frame<R> = Frame(
    time: u32,
    timeBeforeRespawn: s16,
    timeInRespawn: s16,
    boost0: s16,
    boost1: s16,
    boost2: s16,
    pos: Vec3,
    mainRot: R,
    internalSpeed: real)
  {
    /** `timesBeforeBoostEnd[i]`. */
    function Boost(i: nat): s16
      requires i < 3
    {
      if i == 0 then boost0 else if i == 1 then boost1 else boost2
    }

    function WithBoost(i: nat, value: s16): Frame<R>
      requires i < 3
    {
      if i == 0 then this.(boost0 := value) else if i == 1 then this.(boost1 := value) else this.(boost2 := value)
    }
  }

  // ----- The history on values

  function PopBefore<R(!new)>(frames: seq<Frame<R>>, time: u32): (left: seq<Frame<R>>)
    ensures |left| <= |frames|
    ensures left != [] ==> left[0].time >= time
  {
    if frames != [] && frames[0].time < time then PopBefore(frames[1..], time) else frames
  }

  function HandleFuture<R(!new)>(frames: seq<Frame<R>>, frame: Frame<R>, time: u32): seq<Frame<R>> {
    var left := PopBefore(frames, time);
    if |left| < CAPACITY then left + [frame] else left
  }

  /** The server's respawn timers one frame on. */
  function NextTimers(before: s16, during: s16): (r: (s16, s16)) {
    if before != 0 then (Dec16(before), if Dec16(before) == 0 then 1 else during)
    else if during != 0 then (before, if Inc16(during) > 110 then 0 else Inc16(during))
    else (before, during)
  }

  function WithTimers<R(!new)>(frame: Frame<R>, before: s16, during: s16): Frame<R> {
    if before != 0 then
      if frame.timeInRespawn != 0 then frame.(timeInRespawn := 1) else frame.(timeBeforeRespawn := before)
    else if during != 0 then
      if frame.timeBeforeRespawn != 0 then frame.(timeBeforeRespawn := 1) else frame.(timeInRespawn := during)
    else frame.(timeBeforeRespawn := 0, timeInRespawn := 0)
  }

  function RespawnPass<R(!new)>(frames: seq<Frame<R>>, before: s16, during: s16): (r: seq<Frame<R>>)
    ensures |r| == |frames|
  {
    if frames == [] then []
    else
      var next := NextTimers(before, during);
      [WithTimers(frames[0], before, during)] + RespawnPass(frames[1..], next.0, next.1)
  }

  function NextBoost(boost: s16): s16 {
    if boost != 0 then Dec16(boost) else 0
  }

  /** A boost timer that stands at `boost` now, `n` frames on. */
  function BoostAfter(boost: s16, n: nat): s16
    decreases n
  {
    if n == 0 then boost else BoostAfter(NextBoost(boost), n - 1)
  }

  function BoostPass<R(!new)>(frames: seq<Frame<R>>, i: nat, boost: s16): (r: seq<Frame<R>>)
    requires i < 3
    ensures |r| == |frames|
  {
    seq(|frames|, j requires 0 <= j < |frames| => frames[j].WithBoost(i, BoostAfter(boost, j)))
  }

  function BoostPassIfNew<R(!new)>(frames: seq<Frame<R>>, i: nat, boost: s16): (r: seq<Frame<R>>)
    requires i < 3
    ensures |r| == |frames|
  {
    if frames == [] || frames[0].Boost(i) == boost then frames else BoostPass(frames, i, boost)
  }

  function Moved<R(!new)>(rotations: Rotations<R>, frame: Frame<R>, pos: Vec3, rot: R, speed: real): Frame<R> {
    frame.(pos := frame.pos.Minus(pos), mainRot := rotations.compose(rot, frame.mainRot),
           internalSpeed := frame.internalSpeed - speed)
  }

  function MovePass<R(!new)>(rotations: Rotations<R>, frames: seq<Frame<R>>, pos: Vec3, rot: R, speed: real): (r: seq<Frame<R>>)
    ensures |r| == |frames|
  {
    seq(|frames|, j requires 0 <= j < |frames| => Moved(rotations, frames[j], pos, rot, speed))
  }

  predicate PhasesAgree<R(!new)>(a: Frame<R>, b: Frame<R>) {
    && (a.timeBeforeRespawn != 0) == (b.timeBeforeRespawn != 0)
    && (a.timeInRespawn != 0) == (b.timeInRespawn != 0)
  }

  /** Moves the whole history so that its front becomes the server's frame. */
  function Rebase<R(!new)>(rotations: Rotations<R>, frames: seq<Frame<R>>, frame: Frame<R>): (r: seq<Frame<R>>)
    requires frames != []
    ensures |r| == |frames|
  {
    var boosted := BoostPassIfNew(BoostPassIfNew(BoostPassIfNew(frames, 0, frame.boost0), 1, frame.boost1), 2, frame.boost2);
    var front := boosted[0];
    MovePass(rotations, boosted, front.pos.Minus(frame.pos),
             rotations.compose(frame.mainRot, rotations.invert(front.mainRot)),
             front.internalSpeed - frame.internalSpeed)
  }

  function HandlePast<R(!new)>(rotations: Rotations<R>, frames: seq<Frame<R>>, frame: Frame<R>): (r: seq<Frame<R>>)
    ensures |r| <= |frames|
  {
    var left := PopBefore(frames, frame.time);
    if left == [] || left[0].time != frame.time then left
    else
      var timed := RespawnPass(left, frame.timeBeforeRespawn, frame.timeInRespawn);
      if PhasesAgree(timed[0], frame) then Rebase(rotations, timed, frame) else timed
  }

  /** The first buffered frame with that time, which `calcEarly` hands to `applyFrame`. */
  function FindTime<R(!new)>(frames: seq<Frame<R>>, time: u32): Option<Frame<R>> {
    if frames == [] then None
    else if frames[0].time == time then Some(frames[0])
    else FindTime(frames[1..], time)
  }

  function ToS32(x: u32): int {
    if x < 0x8000_0000 then x else x - U32_MODULUS
  }

  /** The signed 32-bit difference `calcEarly` takes for the delay. */
  function Delay(time: u32, server: u32): int {
    var d := ToS32(time) - ToS32(server);
    if d >= 0x8000_0000 then d - U32_MODULUS else if d < -0x8000_0000 then d + U32_MODULUS else d
  }

  function PreviousTime(time: u32): u32 {
    if time == 0 then U32_MODULUS - 1 else time - 1
  }

  function Early<R(!new)>(rotations: Rotations<R>, frames: seq<Frame<R>>, server: Frame<R>, time: u32): seq<Frame<R>> {
    if Delay(time, server.time) <= 0 then HandleFuture(frames, server, time) else HandlePast(rotations, frames, server)
  }

  function Late<R(!new)>(frames: seq<Frame<R>>, now: Frame<R>): seq<Frame<R>> {
    if frames == [] || frames[|frames| - 1].time < now.time
    then (if |frames| == CAPACITY then frames[1..] else frames) + [now]
    else frames
  }

  // ----- What the handlers do, spelled out

  /** The frames that leave are the leading ones before `time`, and no others. */
  lemma {:induction false} PopBeforeIs<R(!new)>(frames: seq<Frame<R>>, time: u32) returns (n: nat)
    ensures n <= |frames| && PopBefore(frames, time) == frames[n..]
    ensures forall i :: 0 <= i < n ==> frames[i].time < time
    ensures n < |frames| ==> frames[n].time >= time
    decreases |frames|
  {
    n := 0;
    if frames != [] && frames[0].time < time {
      var k := PopBeforeIs(frames[1..], time);
      n := k + 1;
    }
  }

  /** A future frame is queued behind what is left, unless sixty are. */
  lemma HandleFutureIs<R(!new)>(frames: seq<Frame<R>>, frame: Frame<R>, time: u32) returns (n: nat)
    ensures n <= |frames| && forall i :: 0 <= i < n ==> frames[i].time < time
    ensures n < |frames| ==> frames[n].time >= time
    ensures HandleFuture(frames, frame, time) == if |frames| - n < 60 then frames[n..] + [frame] else frames[n..]
  {
    n := PopBeforeIs(frames, time);
  }

  /** A past frame that is not in the buffer only makes older ones leave. */
  lemma HandlePastMisses<R(!new)>(rotations: Rotations<R>, frames: seq<Frame<R>>, frame: Frame<R>) returns (n: nat)
    ensures n <= |frames| && forall i :: 0 <= i < n ==> frames[i].time < frame.time
    ensures n < |frames| ==> frames[n].time >= frame.time
    ensures n == |frames| || frames[n].time != frame.time ==> HandlePast(rotations, frames, frame) == frames[n..]
  {
    n := PopBeforeIs(frames, frame.time);
  }

  /** The delay is the difference of the times as a signed 32-bit number. */
  lemma DelayIs(time: u32, server: u32)
    ensures -0x8000_0000 <= Delay(time, server) < 0x8000_0000
    ensures Delay(time, server) == time - server || Delay(time, server) == time - server - 0x1_0000_0000
         || Delay(time, server) == time - server + 0x1_0000_0000
  {
  }

  /** A server frame not behind the race, and less than 2^31 ahead, is a future one, one behind it a past one. */
  lemma EarlyIs<R(!new)>(rotations: Rotations<R>, frames: seq<Frame<R>>, server: Frame<R>, time: u32)
    requires time - 0x8000_0000 < server.time <= time + 0x8000_0000
    ensures Early(rotations, frames, server, time) ==
            if time <= server.time then HandleFuture(frames, server, time) else HandlePast(rotations, frames, server)
  {
    hide HandleFuture, HandlePast;
    DelayIs(time, server.time);
  }

  /** The frame handed to `applyFrame`: the first with that time, if there is one. */
  lemma {:induction false} FindTimeIs<R(!new)>(frames: seq<Frame<R>>, time: u32)
    ensures FindTime(frames, time).Some? <==> exists i :: 0 <= i < |frames| && frames[i].time == time
    ensures FindTime(frames, time).Some? ==>
              exists i :: 0 <= i < |frames| && frames[i] == FindTime(frames, time).value && frames[i].time == time
                          && forall j :: 0 <= j < i ==> frames[j].time != time
    decreases |frames|
  {
    if frames != [] && frames[0].time != time {
      FindTimeIs(frames[1..], time);
      if FindTime(frames[1..], time).Some? {
        var k :| 0 <= k < |frames[1..]| && frames[1..][k] == FindTime(frames[1..], time).value && frames[1..][k].time == time
                 && forall j :: 0 <= j < k ==> frames[1..][j].time != time;
        assert frames[k + 1] == frames[1..][k];
        assert forall j :: 0 <= j < k + 1 ==> frames[j].time != time by {
          forall j | 0 <= j < k + 1 ensures frames[j].time != time {
            assert j == 0 || frames[j] == frames[1..][j - 1];
          }
        }
      } else {
        assert forall j :: 0 <= j < |frames| ==> j == 0 || frames[j] == frames[1..][j - 1];
      }
    }
  }

  /** One frame on: a wait counts down and turns into a respawn at its end, a respawn counts up to 110; 16-bit, around. */
  lemma NextTimersIs(before: s16, during: s16)
    ensures before == 1 ==> NextTimers(before, during) == (0, 1)
    ensures before != 0 && before != 1 && before != -0x8000 ==> NextTimers(before, during) == (before - 1, during)
    ensures before == -0x8000 ==> NextTimers(before, during) == (0x7fff, during)
    ensures before == 0 && during == 0 ==> NextTimers(before, during) == (0, 0)
    ensures before == 0 && during != 0 && during < 110 ==> NextTimers(before, during) == (0, during + 1)
    ensures before == 0 && 110 <= during < 0x7fff ==> NextTimers(before, during) == (0, 0)
    ensures before == 0 && during == 0x7fff ==> NextTimers(before, during) == (0, -0x8000)
  {
  }

  lemma NextBoostIs(boost: s16)
    ensures boost == 0 ==> NextBoost(boost) == 0
    ensures boost != 0 && boost != -0x8000 ==> NextBoost(boost) == boost - 1
    ensures boost == -0x8000 ==> NextBoost(boost) == 0x7fff
  {
  }

  /**
    Correcting one frame: a timer that runs in the server's phase takes the server's value, one that runs
    in the other phase is set to 1, and when the server runs none neither does the frame.
   */
  lemma TimersMeet<R(!new)>(frame: Frame<R>, before: s16, during: s16)
    ensures before != 0 && frame.timeInRespawn != 0 ==> WithTimers(frame, before, during) == frame.(timeInRespawn := 1)
    ensures before != 0 && frame.timeInRespawn == 0 ==> WithTimers(frame, before, during) == frame.(timeBeforeRespawn := before)
    ensures before == 0 && during != 0 && frame.timeBeforeRespawn != 0 ==>
              WithTimers(frame, before, during) == frame.(timeBeforeRespawn := 1)
    ensures before == 0 && during != 0 && frame.timeBeforeRespawn == 0 ==>
              WithTimers(frame, before, during) == frame.(timeInRespawn := during)
    ensures before == 0 && during == 0 ==>
              WithTimers(frame, before, during) == frame.(timeBeforeRespawn := 0, timeInRespawn := 0)
  {
  }

  // ----- History order over whole runs

  datatype Event<R> =
    | CalcEarly(remote: bool, server: Option<Frame<R>>, time: u32)
    | CalcLate(remote: bool, now: Frame<R>)

  function Step<R(!new)>(rotations: Rotations<R>, frames: seq<Frame<R>>, event: Event<R>): seq<Frame<R>> {
    match event
    case CalcEarly(remote, server, time) =>
      if remote && server.Some? then Early(rotations, frames, server.value, time) else frames
    case CalcLate(remote, now) => if remote then Late(frames, now) else frames
  }

  function Run<R(!new)>(rotations: Rotations<R>, frames: seq<Frame<R>>, events: seq<Event<R>>): seq<Frame<R>>
    decreases |events|
  {
    if events == [] then frames else Run(rotations, Step(rotations, frames, events[0]), events[1..])
  }

  function RaceTime<R(!new)>(event: Event<R>): u32 {
    if event.CalcEarly? then event.time else event.now.time
  }

  function ServerTime<R(!new)>(event: Event<R>, server: u32): u32 {
    if event.CalcEarly? && event.server.Some? then event.server.value.time else server
  }

  predicate OrderedStep<R(!new)>(event: Event<R>, race: u32, server: u32) {
    race <= RaceTime(event) && server <= ServerTime(event, server)
  }

  /** Race times and server times never go back, from `race` and `server` on. */
  predicate Ordered<R(!new)>(events: seq<Event<R>>, race: u32, server: u32)
    decreases |events|
  {
    events == [] ||
    (OrderedStep(events[0], race, server) && Ordered(events[1..], RaceTime(events[0]), ServerTime(events[0], server)))
  }

  /**
    When a call keeps the order: the server is less than 2^31 frames behind, or nothing is left in the
    buffer that its frame could be queued behind, or no place is left to queue it.
   */
  predicate KeepsOrder<R(!new)>(frames: seq<Frame<R>>, event: Event<R>) {
    event.CalcEarly? && event.remote && event.server.Some? ==>
      var left := PopBefore(frames, event.time);
      event.time < event.server.value.time + 0x8000_0000 || left == [] || |left| == 60
  }

  predicate AllKeepOrder<R(!new)>(rotations: Rotations<R>, frames: seq<Frame<R>>, events: seq<Event<R>>)
    decreases |events|
  {
    events == [] ||
    (KeepsOrder(frames, events[0]) && AllKeepOrder(rotations, Step(rotations, frames, events[0]), events[1..]))
  }

  function LastRace<R(!new)>(events: seq<Event<R>>, race: u32): u32 {
    if events == [] then race else LastRace(events[1..], RaceTime(events[0]))
  }

  function LastServer<R(!new)>(events: seq<Event<R>>, server: u32): u32 {
    if events == [] then server else LastServer(events[1..], ServerTime(events[0], server))
  }

  ghost predicate Sorted<R(!new)>(frames: seq<Frame<R>>) {
    forall i, j :: 0 <= i < j < |frames| ==> frames[i].time <= frames[j].time
  }

  /** The buffer is sorted before the run and after each of its calls. */
  ghost predicate StaysSorted<R(!new)>(rotations: Rotations<R>, frames: seq<Frame<R>>, events: seq<Event<R>>)
    decreases |events|
  {
    Sorted(frames) && (events == [] || StaysSorted(rotations, Step(rotations, frames, events[0]), events[1..]))
  }

  /** The buffer is sorted, holds at most 60 frames and nothing newer than what was seen. */
  ghost predicate History<R(!new)>(frames: seq<Frame<R>>, race: u32, server: u32) {
    && Sorted(frames) && |frames| <= 60
    && forall i :: 0 <= i < |frames| ==> frames[i].time <= race || frames[i].time <= server
  }

  lemma {:induction false} PopBeforeDrops<R(!new)>(frames: seq<Frame<R>>, time: u32, race: u32, server: u32)
    requires History(frames, race, server)
    ensures History(PopBefore(frames, time), race, server)
    decreases |frames|
  {
    if frames != [] && frames[0].time < time {
      assert forall i :: 0 <= i < |frames[1..]| ==> frames[1..][i] == frames[i + 1];
      PopBeforeDrops(frames[1..], time, race, server);
    }
  }

  /** Correcting frames does not move them in time. */
  ghost predicate SameTimes<R(!new)>(a: seq<Frame<R>>, b: seq<Frame<R>>) {
    |a| == |b| && forall i :: 0 <= i < |a| ==> a[i].time == b[i].time
  }

  lemma {:induction false} RespawnPassTimes<R(!new)>(frames: seq<Frame<R>>, before: s16, during: s16)
    ensures SameTimes(RespawnPass(frames, before, during), frames)
    decreases |frames|
  {
    if frames != [] {
      var next := NextTimers(before, during);
      RespawnPassTimes(frames[1..], next.0, next.1);
    }
  }

  lemma RebaseTimes<R(!new)>(rotations: Rotations<R>, frames: seq<Frame<R>>, frame: Frame<R>)
    requires frames != []
    ensures SameTimes(Rebase(rotations, frames, frame), frames)
  {
    forall j | 0 <= j < |frames|
      ensures Rebase(rotations, frames, frame)[j].time == frames[j].time
    {
      RebaseAt(rotations, frames, frame, j);
    }
  }

  lemma HandlePastTimes<R(!new)>(rotations: Rotations<R>, frames: seq<Frame<R>>, frame: Frame<R>)
    ensures SameTimes(HandlePast(rotations, frames, frame), PopBefore(frames, frame.time))
  {
    hide Rebase, RespawnPass, PopBefore;
    var left := PopBefore(frames, frame.time);
    var timed := RespawnPass(left, frame.timeBeforeRespawn, frame.timeInRespawn);
    RespawnPassTimes(left, frame.timeBeforeRespawn, frame.timeInRespawn);
    if left != [] {
      RebaseTimes(rotations, timed, frame);
    }
  }

  lemma HistoryByTimes<R(!new)>(a: seq<Frame<R>>, b: seq<Frame<R>>, race: u32, server: u32)
    requires SameTimes(a, b) && History(b, race, server)
    ensures History(a, race, server)
  {
  }

  /** Within 2^31 frames the 32-bit difference tells a past server frame from one that is not, and beyond it does not. */
  lemma DelayTells(time: u32, server: u32)
    ensures (Delay(time, server) <= 0 <==> time <= server) <==> server <= time + 0x8000_0000 && time < server + 0x8000_0000
  {
  }

  /** With times that do not go back, a call keeps the history, and keeps it sorted, if and only if `KeepsOrder`. */
  lemma StepKeepsHistory<R(!new)>(rotations: Rotations<R>, frames: seq<Frame<R>>, event: Event<R>, race: u32, server: u32)
    requires History(frames, race, server) && OrderedStep(event, race, server)
    ensures History(Step(rotations, frames, event), RaceTime(event), ServerTime(event, server)) <==> KeepsOrder(frames, event)
    ensures Sorted(Step(rotations, frames, event)) <==> KeepsOrder(frames, event)
  {
    hide Early, Late, Sorted, PopBefore;
    match event
    case CalcEarly(remote, reported, time) =>
      if remote && reported.Some? {
        EarlyKeepsHistory(rotations, frames, reported.value, time, race, server);
      } else {
        HistoryLater(frames, race, server, time, ServerTime(event, server));
      }
    case CalcLate(remote, now) =>
      LateKeepsHistory(frames, now, race, server);
      HistoryLater(frames, race, server, now.time, server);
  }

  lemma HistoryLater<R(!new)>(frames: seq<Frame<R>>, race: u32, server: u32, race': u32, server': u32)
    requires History(frames, race, server) && race <= race' && server <= server'
    ensures History(frames, race', server')
  {
  }

  lemma EarlyKeepsHistory<R(!new)>(
      rotations: Rotations<R>, frames: seq<Frame<R>>, frame: Frame<R>, time: u32, race: u32, server: u32)
    requires History(frames, race, server) && race <= time && server <= frame.time
    ensures var early, left := Early(rotations, frames, frame, time), PopBefore(frames, time);
            var keeps := time < frame.time + 0x8000_0000 || left == [] || |left| == CAPACITY;
            (History(early, time, frame.time) <==> keeps) && (Sorted(early) <==> keeps)
  {
    hide HandlePast, PopBefore, Delay;
    DelayTells(time, frame.time);
    if time >= frame.time + 0x8000_0000 {
      FarIsFuture(time, frame.time);
      PopBeforeDrops(frames, time, race, server);
      QueuedBehind(PopBefore(frames, time), frame, time);
    } else if Delay(time, frame.time) <= 0 {
      PopBeforeDrops(frames, time, race, server);
      FutureIsOrdered(time, frame.time);
    } else {
      PopBeforeDrops(frames, frame.time, race, server);
      HandlePastTimes(rotations, frames, frame);
      HistoryByTimes(HandlePast(rotations, frames, frame), PopBefore(frames, frame.time), race, server);
    }
  }

  lemma FutureIsOrdered(time: u32, server: u32)
    requires Delay(time, server) <= 0 && time < server + 0x8000_0000
    ensures time <= server
  {
  }

  lemma FarIsFuture(time: u32, server: u32)
    requires time >= server + 0x8000_0000
    ensures Delay(time, server) <= 0
  {
  }

  /** A frame of the past joins the end of the queue: in order only if it joins nothing or does not join. */
  lemma QueuedBehind<R(!new)>(left: seq<Frame<R>>, frame: Frame<R>, time: u32)
    requires Sorted(left) && frame.time < time && (left != [] ==> left[0].time >= time) && |left| <= CAPACITY
    ensures Sorted(if |left| < CAPACITY then left + [frame] else left) <==> left == [] || |left| == CAPACITY
  {
    if left != [] && |left| < CAPACITY {
      assert (left + [frame])[0].time > (left + [frame])[|left|].time;
    }
  }

  lemma LateKeepsHistory<R(!new)>(frames: seq<Frame<R>>, now: Frame<R>, race: u32, server: u32)
    requires History(frames, race, server) && race <= now.time
    ensures History(Late(frames, now), now.time, server)
  {
    assert forall i :: 0 <= i < |frames| - 1 ==> frames[1..][i] == frames[i + 1];
  }

  /**
    Over every run with non-decreasing times the buffer stays sorted by time if and only if each call
    keeps the order, and then it is a history at the end.
   */
  lemma {:induction false} RunKeepsHistory<R(!new)>(
      rotations: Rotations<R>, frames: seq<Frame<R>>, events: seq<Event<R>>, race: u32, server: u32)
    requires History(frames, race, server) && Ordered(events, race, server)
    ensures StaysSorted(rotations, frames, events) <==> AllKeepOrder(rotations, frames, events)
    ensures AllKeepOrder(rotations, frames, events) ==>
              History(Run(rotations, frames, events), LastRace(events, race), LastServer(events, server))
    decreases |events|
  {
    hide Step, Sorted, OrderedStep, KeepsOrder;
    if events != [] {
      StepKeepsHistory(rotations, frames, events[0], race, server);
      var next := Step(rotations, frames, events[0]);
      if KeepsOrder(frames, events[0]) {
        RunKeepsHistory(rotations, next, events[1..], RaceTime(events[0]), ServerTime(events[0], server));
      }
    }
  }

  /** A server 2^31 frames or more behind is taken for one ahead: after `calcLate` its frame is queued out of order. */
  lemma FarServerUnsorts<R(!new)>(rotations: Rotations<R>, now: Frame<R>, server: Frame<R>)
    requires now.time >= server.time + 0x8000_0000
    ensures !StaysSorted(rotations, [], [CalcLate(true, now), CalcEarly(true, Some(server), now.time)])
  {
    var events := [CalcLate(true, now), CalcEarly(true, Some(server), now.time)];
    var none: seq<Frame<R>> := [];
    assert events[1..] == [CalcEarly(true, Some(server), now.time)] && events[1..][1..] == [];
    assert Ordered(events[1..], now.time, server.time);
    assert Late(none, now) == [now];
    assert PopBefore([now], now.time) == [now];
    RunKeepsHistory(rotations, none, events, now.time, server.time);
    assert !KeepsOrder([now], events[1]);
  }

  /** After a future server frame nothing in the buffer is as old as the previous race frame, so none is applied. */
  lemma FutureFrameAppliesNothing<R(!new)>(frames: seq<Frame<R>>, frame: Frame<R>, time: u32, race: u32, server: u32)
    requires History(frames, race, server) && race <= time && server <= frame.time
    requires Delay(time, frame.time) <= 0
    ensures FindTime(HandleFuture(frames, frame, time), PreviousTime(time)) == None
  {
    hide PopBefore, Delay;
    NotPrevious(time, frame.time);
    PopBeforeDrops(frames, time, race, server);
    assert Sorted(PopBefore(frames, time));
    NotFound(HandleFuture(frames, frame, time), PreviousTime(time));
  }

  lemma NotPrevious(time: u32, server: u32)
    requires Delay(time, server) <= 0
    ensures server != PreviousTime(time)
  {
  }

  /** That holds at every future server frame of every run that has kept the order so far. */
  lemma {:induction false} RunAppliesNothing<R(!new)>(
      rotations: Rotations<R>, frames: seq<Frame<R>>, events: seq<Event<R>>, race: u32, server: u32, k: nat)
    requires History(frames, race, server) && Ordered(events, race, server) && k < |events|
    requires AllKeepOrder(rotations, frames, events[..k])
    requires events[k].CalcEarly? && events[k].remote && events[k].server.Some?
    requires Delay(events[k].time, events[k].server.value.time) <= 0
    ensures FindTime(Run(rotations, frames, events[..k + 1]), PreviousTime(events[k].time)) == None
    decreases k
  {
    hide History, FindTime, HandleFuture, HandlePast, Delay, Late, KeepsOrder;
    var first := Step(rotations, frames, events[0]);
    assert events[..k + 1][0] == events[0] && events[..k + 1][1..] == events[1..][..k];
    if k == 0 {
      FutureFrameAppliesNothing(frames, events[0].server.value, events[0].time, race, server);
    } else {
      assert events[..k][0] == events[0] && events[..k][1..] == events[1..][..k - 1];
      StepKeepsHistory(rotations, frames, events[0], race, server);
      RunAppliesNothing(rotations, first, events[1..], RaceTime(events[0]), ServerTime(events[0], server), k - 1);
    }
  }

  lemma {:induction false} NotFound<R(!new)>(frames: seq<Frame<R>>, time: u32)
    requires forall i :: 0 <= i < |frames| ==> frames[i].time != time
    ensures FindTime(frames, time) == None
    decreases |frames|
  {
    if frames != [] {
      NotFound(frames[1..], time);
    }
  }

  // ----- The rebase

  /** A timer that is not negative counts down to zero and stays there. */
  lemma {:induction false} BoostAfterCountsDown(boost: s16, n: nat)
    requires boost >= 0
    ensures BoostAfter(boost, n) == if boost >= n then boost - n else 0
    decreases n
  {
    if n != 0 {
      BoostAfterCountsDown(NextBoost(boost), n - 1);
    }
  }

  lemma Associates<R(!new)>(rotations: Rotations<R>, a: R, b: R, c: R)
    requires rotations.IsGroup()
    ensures rotations.compose(rotations.compose(a, b), c) == rotations.compose(a, rotations.compose(b, c))
  {
  }

  lemma Cancels<R(!new)>(rotations: Rotations<R>, a: R)
    requires rotations.IsGroup()
    ensures rotations.compose(rotations.identity, a) == a == rotations.compose(a, rotations.identity)
    ensures rotations.compose(rotations.invert(a), a) == rotations.identity == rotations.compose(a, rotations.invert(a))
  {
  }

  /** Turning both ends alike leaves the rotation between them. */
  lemma BetweenMoved<R(!new)>(rotations: Rotations<R>, d: R, a: R, b: R)
    requires rotations.IsGroup()
    ensures rotations.Between(rotations.compose(d, a), rotations.compose(d, b)) == rotations.Between(a, b)
  {
    hide Rotations.IsGroup;
    var da := rotations.compose(d, a);
    var back := rotations.compose(rotations.invert(da), d);
    // back inverts a: back∘a is the identity, so back = (back∘a)∘a⁻¹ = a⁻¹.
    Associates(rotations, rotations.invert(da), d, a);
    Cancels(rotations, da);
    Associates(rotations, back, a, rotations.invert(a));
    Cancels(rotations, a);
    Cancels(rotations, back);
    Cancels(rotations, rotations.invert(a));
    assert back == rotations.invert(a);
    Associates(rotations, rotations.invert(da), d, b);
  }

  lemma BackToServer<R(!new)>(rotations: Rotations<R>, server: R, front: R)
    requires rotations.IsGroup()
    ensures rotations.compose(rotations.compose(server, rotations.invert(front)), front) == server
  {
    var compose := rotations.compose;
    assert compose(compose(server, rotations.invert(front)), front) == compose(server, compose(rotations.invert(front), front));
  }

  lemma BoostedAt<R(!new)>(frames: seq<Frame<R>>, i: nat, boost: s16, j: nat)
    requires i < 3 && j < |frames|
    ensures BoostPassIfNew(frames, i, boost)[j] ==
            frames[j].WithBoost(i, if frames[0].Boost(i) == boost then frames[j].Boost(i) else BoostAfter(boost, j))
  {
  }

  /** What the rebase makes of each buffered frame. */
  lemma RebaseAt<R(!new)>(rotations: Rotations<R>, frames: seq<Frame<R>>, frame: Frame<R>, j: nat)
    requires j < |frames|
    ensures var front, was, now := frames[0], frames[j], Rebase(rotations, frames, frame)[j];
            && now.pos == was.pos.Minus(front.pos.Minus(frame.pos))
            && now.internalSpeed == was.internalSpeed - (front.internalSpeed - frame.internalSpeed)
            && now.mainRot == rotations.compose(rotations.compose(frame.mainRot, rotations.invert(front.mainRot)), was.mainRot)
            && now.time == was.time && now.timeBeforeRespawn == was.timeBeforeRespawn && now.timeInRespawn == was.timeInRespawn
            && forall i :: 0 <= i < 3 ==>
                 now.Boost(i) == if front.Boost(i) == frame.Boost(i) then was.Boost(i) else BoostAfter(frame.Boost(i), j)
  {
    hide BoostPassIfNew, BoostAfter;
    var once := BoostPassIfNew(frames, 0, frame.boost0);
    var twice := BoostPassIfNew(once, 1, frame.boost1);
    BoostedAt(frames, 0, frame.boost0, 0);
    BoostedAt(frames, 0, frame.boost0, j);
    BoostedAt(once, 1, frame.boost1, 0);
    BoostedAt(once, 1, frame.boost1, j);
    BoostedAt(twice, 2, frame.boost2, 0);
    BoostedAt(twice, 2, frame.boost2, j);
  }

  /**
    When the respawn phases agree, the rebased history starts with the server's position, rotation,
    speed and boost timers. Every displacement between buffered frames is kept, and a boost timer that
    had to be corrected counts down from the server's value along the buffer.
   */
  lemma RebaseMeetsServer<R(!new)>(rotations: Rotations<R>, frames: seq<Frame<R>>, frame: Frame<R>)
    requires rotations.IsGroup() && frames != []
    ensures var front := Rebase(rotations, frames, frame)[0];
            && front.pos == frame.pos && front.mainRot == frame.mainRot && front.internalSpeed == frame.internalSpeed
            && front.boost0 == frame.boost0 && front.boost1 == frame.boost1 && front.boost2 == frame.boost2
  {
    hide Rebase, Rotations.IsGroup;
    RebaseAt(rotations, frames, frame, 0);
    BackToServer(rotations, frame.mainRot, frames[0].mainRot);
    var front := Rebase(rotations, frames, frame)[0];
    assert front.Boost(0) == frame.Boost(0) && front.Boost(1) == frame.Boost(1) && front.Boost(2) == frame.Boost(2);
  }

  lemma RebaseKeepsDisplacements<R(!new)>(rotations: Rotations<R>, frames: seq<Frame<R>>, frame: Frame<R>, j: nat, k: nat)
    requires rotations.IsGroup() && j < |frames| && k < |frames|
    ensures var r := Rebase(rotations, frames, frame);
            && r[k].pos.Minus(r[j].pos) == frames[k].pos.Minus(frames[j].pos)
            && r[k].internalSpeed - r[j].internalSpeed == frames[k].internalSpeed - frames[j].internalSpeed
            && rotations.Between(r[j].mainRot, r[k].mainRot) == rotations.Between(frames[j].mainRot, frames[k].mainRot)
  {
    hide Rebase, Rotations.IsGroup;
    RebaseAt(rotations, frames, frame, j);
    RebaseAt(rotations, frames, frame, k);
    var d := rotations.compose(frame.mainRot, rotations.invert(frames[0].mainRot));
    BetweenMoved(rotations, d, frames[j].mainRot, frames[k].mainRot);
  }

  /** Each boost timer the server corrects counts down from the server's value along the buffer. */
  lemma RebaseBoosts<R(!new)>(rotations: Rotations<R>, frames: seq<Frame<R>>, frame: Frame<R>, i: nat, j: nat)
    requires i < 3 && j < |frames|
    ensures Rebase(rotations, frames, frame)[j].Boost(i) ==
            if frames[0].Boost(i) == frame.Boost(i) then frames[j].Boost(i) else BoostAfter(frame.Boost(i), j)
    ensures frames[0].Boost(i) != frame.Boost(i) && frame.Boost(i) >= 0 ==>
              Rebase(rotations, frames, frame)[j].Boost(i) == if frame.Boost(i) >= j then frame.Boost(i) - j else 0
  {
    hide Rebase, BoostAfter;
    RebaseAt(rotations, frames, frame, j);
    if frame.Boost(i) >= 0 {
      BoostAfterCountsDown(frame.Boost(i), j);
    }
  }

  // ----- The respawn timers

  /** The server's timers `n` frames on. */
  function TimersAfter(before: s16, during: s16, n: nat): (s16, s16)
    decreases n
  {
    if n == 0 then (before, during)
    else
      var next := NextTimers(before, during);
      TimersAfter(next.0, next.1, n - 1)
  }

  /** Each buffered frame is corrected with the server's timers as far on as it is. */
  lemma {:induction false} RespawnPassAt<R(!new)>(frames: seq<Frame<R>>, before: s16, during: s16, j: nat)
    requires j < |frames|
    ensures var timers := TimersAfter(before, during, j);
            RespawnPass(frames, before, during)[j] == WithTimers(frames[j], timers.0, timers.1)
    decreases |frames|
  {
    hide WithTimers, NextTimers;
    if j != 0 {
      var next := NextTimers(before, during);
      RespawnPassAt(frames[1..], next.0, next.1, j - 1);
    }
  }

  lemma {:induction false} NoTimersStay(n: nat)
    ensures TimersAfter(0, 0, n) == (0, 0)
    decreases n
  {
    if n != 0 {
      NoTimersStay(n - 1);
    }
  }

  /** A respawn under way counts up to 110 and is then over. */
  lemma {:induction false} InRespawnCountsUp(during: s16, n: nat)
    requires 0 < during < 0x7fff
    ensures TimersAfter(0, during, n) == (0, if n == 0 then during else if during + n <= 110 then during + n else 0)
    decreases n
  {
    if n != 0 {
      if during + 1 > 110 {
        NoTimersStay(n - 1);
      } else {
        InRespawnCountsUp(during + 1, n - 1);
      }
    }
  }

  /** The time before a respawn counts down, and when it is up the respawn starts and takes 110 frames. */
  lemma {:induction false} BeforeRespawnCountsDown(before: s16, during: s16, n: nat)
    requires before > 0
    ensures TimersAfter(before, during, n) ==
            if n < before then (before - n, during) else (0, if n - before < 110 then n - before + 1 else 0)
    decreases n
  {
    if n != 0 {
      if before == 1 {
        InRespawnCountsUp(1, n - 1);
      } else {
        BeforeRespawnCountsDown(before - 1, during, n - 1);
      }
    }
  }

  /** The two respawn timers of a frame are never both running. */
  predicate OneTimer<R>(frame: Frame<R>) {
    frame.timeBeforeRespawn == 0 || frame.timeInRespawn == 0
  }

  lemma {:induction false} RespawnPassOneTimer<R(!new)>(frames: seq<Frame<R>>, before: s16, during: s16)
    requires forall j :: 0 <= j < |frames| ==> OneTimer(frames[j])
    ensures forall j :: 0 <= j < |frames| ==> OneTimer(RespawnPass(frames, before, during)[j])
    decreases |frames|
  {
    if frames != [] {
      var next := NextTimers(before, during);
      RespawnPassOneTimer(frames[1..], next.0, next.1);
    }
  }

  /** Whatever the server reports, correcting the history never sets both timers of a frame. */
  lemma HandlePastKeepsOneTimer<R(!new)>(rotations: Rotations<R>, frames: seq<Frame<R>>, frame: Frame<R>)
    requires forall j :: 0 <= j < |frames| ==> OneTimer(frames[j])
    ensures forall j :: 0 <= j < |HandlePast(rotations, frames, frame)| ==> OneTimer(HandlePast(rotations, frames, frame)[j])
  {
    hide Rebase, RespawnPass, PopBefore;
    var left := PopBefore(frames, frame.time);
    PopBeforeOneTimer(frames, frame.time);
    var timed := RespawnPass(left, frame.timeBeforeRespawn, frame.timeInRespawn);
    RespawnPassOneTimer(left, frame.timeBeforeRespawn, frame.timeInRespawn);
    forall j | 0 <= j < |HandlePast(rotations, frames, frame)|
      ensures OneTimer(HandlePast(rotations, frames, frame)[j])
    {
      if left != [] && left[0].time == frame.time && PhasesAgree(timed[0], frame) {
        RebaseAt(rotations, timed, frame, j);
      }
    }
  }

  lemma {:induction false} PopBeforeOneTimer<R(!new)>(frames: seq<Frame<R>>, time: u32)
    requires forall j :: 0 <= j < |frames| ==> OneTimer(frames[j])
    ensures forall j :: 0 <= j < |PopBefore(frames, time)| ==> OneTimer(PopBefore(frames, time)[j])
    decreases |frames|
  {
    if frames != [] && frames[0].time < time {
      PopBeforeOneTimer(frames[1..], time);
    }
  }

  /**
    What the correction needs: the server waits for a respawn only where the front does not run one, or
    runs both as the server does; and it respawns only where the front does not wait.
   */
  predicate Compatible<R>(front: Frame<R>, frame: Frame<R>) {
    if frame.timeBeforeRespawn != 0
    then (front.timeInRespawn != 0) == (frame.timeInRespawn != 0) && (front.timeInRespawn != 0 ==> front.timeBeforeRespawn != 0)
    else frame.timeInRespawn != 0 ==> front.timeBeforeRespawn == 0
  }

  /** When the phases agree after the first loop, in terms of the frames before it. */
  lemma PhasesAgreeWhen<R(!new)>(front: Frame<R>, frame: Frame<R>)
    ensures PhasesAgree(WithTimers(front, frame.timeBeforeRespawn, frame.timeInRespawn), frame) <==> Compatible(front, frame)
  {
  }

  lemma {:induction false} RespawnPassSame<R(!new)>(frames: seq<Frame<R>>, before: s16, during: s16, j: nat)
    requires j < |frames|
    ensures RespawnPass(frames, before, during)[j].(timeBeforeRespawn := 0, timeInRespawn := 0)
         == frames[j].(timeBeforeRespawn := 0, timeInRespawn := 0)
    ensures RespawnPass(frames, before, during)[0] == WithTimers(frames[0], before, during)
    decreases |frames|
  {
    if j != 0 {
      var next := NextTimers(before, during);
      RespawnPassSame(frames[1..], next.0, next.1, j - 1);
    }
  }

  function WithoutTimers<R>(frame: Frame<R>): Frame<R> {
    frame.(timeBeforeRespawn := 0, timeInRespawn := 0)
  }

  /**
    A past server frame found in the buffer: the history is moved so that its front is the server's
    frame and all displacements stay, exactly when the two frames are compatible. Otherwise only
    respawn timers change. The respawn timers of the front become the server's too, unless both frames
    run both.
   */
  lemma HandlePastRebases<R(!new)>(rotations: Rotations<R>, frames: seq<Frame<R>>, frame: Frame<R>, j: nat, k: nat)
    requires rotations.IsGroup()
    requires var left := PopBefore(frames, frame.time);
             left != [] && left[0].time == frame.time && j < |left| && k < |left|
    ensures var left, r := PopBefore(frames, frame.time), HandlePast(rotations, frames, frame);
            && |r| == |left|
            && (Compatible(left[0], frame) ==>
                  && WithoutTimers(r[0]) == WithoutTimers(frame)
                  && (OneTimer(frame) ==> r[0] == frame)
                  && r[k].pos.Minus(r[j].pos) == left[k].pos.Minus(left[j].pos)
                  && r[k].internalSpeed - r[j].internalSpeed == left[k].internalSpeed - left[j].internalSpeed
                  && rotations.Between(r[j].mainRot, r[k].mainRot) == rotations.Between(left[j].mainRot, left[k].mainRot))
            && (!Compatible(left[0], frame) ==> WithoutTimers(r[j]) == WithoutTimers(left[j]))
  {
    hide Rebase, RespawnPass, PopBefore, Rotations.IsGroup;
    var left := PopBefore(frames, frame.time);
    var timed := RespawnPass(left, frame.timeBeforeRespawn, frame.timeInRespawn);
    PhasesAgreeWhen(left[0], frame);
    RespawnPassSame(left, frame.timeBeforeRespawn, frame.timeInRespawn, 0);
    RespawnPassSame(left, frame.timeBeforeRespawn, frame.timeInRespawn, j);
    RespawnPassSame(left, frame.timeBeforeRespawn, frame.timeInRespawn, k);
    RebaseMeetsServer(rotations, timed, frame);
    RebaseAt(rotations, timed, frame, 0);
    RebaseKeepsDisplacements(rotations, timed, frame, j, k);
  }

  // ----- The program

  class KartRollback<R(0, !new)> {
    const frames: CircularBuffer<Frame<R>>
    const rotations: Rotations<R>

    ghost predicate Valid()
      reads this, frames
    {
      frames.Valid() && frames.vals.Length == CAPACITY
    }

    ghost function History(): seq<Frame<R>>
      requires Valid()
      reads this, frames, frames.vals
    {
      frames.Contents()
    }

    constructor (rotations: Rotations<R>)
      ensures Valid() && History() == [] && this.rotations == rotations && fresh(frames) && fresh(frames.vals)
    {
      this.rotations := rotations;
      frames := new CircularBuffer(CAPACITY);
    }

    /** `calcEarly` up to its use of the frame found: that frame, if any, goes to `applyFrame`. */
    method CalcEarly(remote: bool, server: Option<Frame<R>>, time: u32) returns (applied: Option<Frame<R>>)
      requires Valid()
      modifies frames, frames.vals
      ensures Valid() && History() == Step(rotations, old(History()), Event.CalcEarly(remote, server, time))
      ensures applied == if remote && server.Some? then FindTime(History(), PreviousTime(time)) else None
      ensures !remote || server == None ==> applied == None && History() == old(History())
      ensures remote && server != None ==>
                (applied != None <==> exists i :: 0 <= i < |History()| && History()[i].time == (time - 1) % 0x1_0000_0000)
      ensures applied != None ==>
                exists i :: 0 <= i < |History()| && History()[i] == applied.value && History()[i].time == (time - 1) % 0x1_0000_0000
                            && forall j :: 0 <= j < i ==> History()[j].time != (time - 1) % 0x1_0000_0000
    {
      hide HandleFuture, HandlePast, PopBefore, PreviousTime, FindTime, Delay;
      if !remote {
        return None;
      }
      if server.None? {
        return None;
      }
      var delay := Delay(time, server.value.time);
      if delay <= 0 {
        HandleFutureFrame(server.value, time);
      } else {
        HandlePastFrame(server.value);
      }
      applied := FindFrame(PreviousTime(time));
      PreviousIs(time);
      FindTimeIs(History(), (time - 1) % 0x1_0000_0000);
    }

    lemma PreviousIs(time: u32)
      ensures PreviousTime(time) == (time - 1) % 0x1_0000_0000
    {
    }

    /** The loop that looks for the frame to apply. */
    method FindFrame(time: u32) returns (found: Option<Frame<R>>)
      requires Valid()
      ensures found == FindTime(History(), time)
    {
      var i := 0;
      while i < frames.size
        invariant i <= frames.size && FindTime(History(), time) == FindTime(History()[i..], time)
      {
        var frame := frames.Get(i);
        if frame.time == time {
          return Some(frame);
        }
        assert History()[i..][1..] == History()[i + 1..];
        i := i + 1;
      }
      return None;
    }

    method CalcLate(remote: bool, now: Frame<R>)
      requires Valid()
      modifies frames, frames.vals
      ensures Valid() && History() == Step(rotations, old(History()), Event.CalcLate(remote, now))
      ensures var was := old(History());
              History() ==
              if !remote || (was != [] && was[|was| - 1].time >= now.time) then was
              else if |was| == 60 then was[1..] + [now] else was + [now]
    {
      if !remote {
        return;
      }
      var back := frames.Back();
      if back.None? || back.value.time < now.time {
        if frames.Full() {
          frames.PopFront();
        }
        var pushed := frames.PushBack(now);
      }
    }

    /** The loop both handlers start with. */
    method PopOld(time: u32)
      requires Valid()
      modifies frames
      ensures Valid() && History() == PopBefore(old(History()), time)
    {
      var front := frames.Front();
      while front.Some? && front.value.time < time
        invariant Valid() && front == if History() == [] then None else Some(History()[0])
        invariant PopBefore(History(), time) == PopBefore(old(History()), time)
        decreases |History()|
      {
        frames.PopFront();
        front := frames.Front();
      }
    }

    method HandleFutureFrame(frame: Frame<R>, time: u32)
      requires Valid()
      modifies frames, frames.vals
      ensures Valid() && History() == HandleFuture(old(History()), frame, time)
    {
      PopOld(time);
      if !frames.Full() {
        var pushed := frames.PushBack(frame);
      }
    }

    method HandlePastFrame(frame: Frame<R>)
      requires Valid()
      modifies frames, frames.vals
      ensures Valid() && History() == HandlePast(rotations, old(History()), frame)
    {
      hide PopBefore, RespawnPass, Rebase;
      PopOld(frame.time);
      var rollbackFrame := frames.Front();
      if rollbackFrame.Some? && rollbackFrame.value.time == frame.time {
        CorrectRespawn(frame.timeBeforeRespawn, frame.timeInRespawn);
        rollbackFrame := frames.Front();
        if (rollbackFrame.value.timeBeforeRespawn != 0) == (frame.timeBeforeRespawn != 0)
           && (rollbackFrame.value.timeInRespawn != 0) == (frame.timeInRespawn != 0) {
          RebaseOnto(frame);
        }
      }
    }

    /** What `handlePastFrame` does once the respawn phases agree. */
    method RebaseOnto(frame: Frame<R>)
      requires Valid() && History() != []
      modifies frames.vals
      ensures Valid() && History() == Rebase(rotations, old(History()), frame)
    {
      hide BoostPassIfNew, MovePass;
      CorrectBoost(0, frame.boost0);
      CorrectBoost(1, frame.boost1);
      CorrectBoost(2, frame.boost2);
      var rollbackFrame := frames.Front();
      var front := rollbackFrame.value;
      var posDelta := front.pos.Minus(frame.pos);
      var mainRotDelta := rotations.compose(frame.mainRot, rotations.invert(front.mainRot));
      var internalSpeedDelta := front.internalSpeed - frame.internalSpeed;
      Move(posDelta, mainRotDelta, internalSpeedDelta);
    }

    method CorrectRespawn(before: s16, during: s16)
      requires Valid()
      modifies frames.vals
      ensures Valid() && History() == RespawnPass(old(History()), before, during)
    {
      hide RespawnPass, NextTimers, WithTimers;
      ghost var was := History();
      ghost var all := RespawnPass(was, before, during);
      var timeBeforeRespawn, timeInRespawn := before, during;
      var i := 0;
      while i < frames.size
        invariant i <= frames.size && |History()| == |was|
        invariant all[i..] == RespawnPass(was[i..], timeBeforeRespawn, timeInRespawn)
        invariant forall k :: 0 <= k < i ==> History()[k] == all[k]
        invariant forall k :: i <= k < |was| ==> History()[k] == was[k]
      {
        RespawnPassFrom(was, all, i, timeBeforeRespawn, timeInRespawn);
        timeBeforeRespawn, timeInRespawn := CorrectRespawnAt(i, timeBeforeRespawn, timeInRespawn);
        i := i + 1;
      }
    }

    /** The body of that loop. */
    method CorrectRespawnAt(i: nat, before: s16, during: s16) returns (timeBeforeRespawn: s16, timeInRespawn: s16)
      requires Valid() && i < frames.size
      modifies frames.vals
      ensures Valid() && History() == old(History())[i := WithTimers(old(History())[i], before, during)]
      ensures (timeBeforeRespawn, timeInRespawn) == NextTimers(before, during)
    {
      timeBeforeRespawn, timeInRespawn := before, during;
      var current := frames.Get(i);
      if timeBeforeRespawn != 0 {
        if current.timeInRespawn != 0 {
          frames.Set(i, current.(timeInRespawn := 1));
        } else {
          frames.Set(i, current.(timeBeforeRespawn := timeBeforeRespawn));
        }
        timeBeforeRespawn := Dec16(timeBeforeRespawn);
        if timeBeforeRespawn == 0 {
          timeInRespawn := 1;
        }
      } else if timeInRespawn != 0 {
        if current.timeBeforeRespawn != 0 {
          frames.Set(i, current.(timeBeforeRespawn := 1));
        } else {
          frames.Set(i, current.(timeInRespawn := timeInRespawn));
        }
        timeInRespawn := Inc16(timeInRespawn);
        if timeInRespawn > 110 {
          timeInRespawn := 0;
        }
      } else {
        frames.Set(i, current.(timeBeforeRespawn := 0, timeInRespawn := 0));
      }
    }

    /** One turn of the loop over boost kinds. */
    method CorrectBoost(i: nat, boost: s16)
      requires Valid() && i < 3
      modifies frames.vals
      ensures Valid() && History() == BoostPassIfNew(old(History()), i, boost)
    {
      ghost var was := History();
      var rollbackFrame := frames.Front();
      if rollbackFrame.None? || boost == rollbackFrame.value.Boost(i) {
        return;
      }
      var timeBeforeBoostEnd := boost;
      var j := 0;
      while j < frames.size
        invariant j <= frames.size && |History()| == |was|
        invariant timeBeforeBoostEnd == BoostAfter(boost, j)
        invariant forall k :: 0 <= k < j ==> History()[k] == was[k].WithBoost(i, BoostAfter(boost, k))
        invariant forall k :: j <= k < |was| ==> History()[k] == was[k]
      {
        var current := frames.Get(j);
        frames.Set(j, current.WithBoost(i, timeBeforeBoostEnd));
        BoostAfterStep(boost, j);
        if timeBeforeBoostEnd != 0 {
          timeBeforeBoostEnd := Dec16(timeBeforeBoostEnd);
        }
        j := j + 1;
      }
    }

    method Move(posDelta: Vec3, mainRotDelta: R, internalSpeedDelta: real)
      requires Valid()
      modifies frames.vals
      ensures Valid() && History() == MovePass(rotations, old(History()), posDelta, mainRotDelta, internalSpeedDelta)
    {
      ghost var was := History();
      var i := 0;
      while i < frames.size
        invariant i <= frames.size && |History()| == |was|
        invariant forall k :: 0 <= k < i ==> History()[k] == Moved(rotations, was[k], posDelta, mainRotDelta, internalSpeedDelta)
        invariant forall k :: i <= k < |was| ==> History()[k] == was[k]
      {
        var current := frames.Get(i);
        frames.Set(i, current.(pos := current.pos.Minus(posDelta),
                               mainRot := rotations.compose(mainRotDelta, current.mainRot),
                               internalSpeed := current.internalSpeed - internalSpeedDelta));
        i := i + 1;
      }
    }
  }

  /** The pass over what is left, one frame on. */
  lemma RespawnPassFrom<R(!new)>(was: seq<Frame<R>>, all: seq<Frame<R>>, i: nat, before: s16, during: s16)
    requires i < |was| == |all| && all[i..] == RespawnPass(was[i..], before, during)
    ensures all[i] == WithTimers(was[i], before, during)
    ensures var next := NextTimers(before, during); all[i + 1..] == RespawnPass(was[i + 1..], next.0, next.1)
  {
    assert all[i] == all[i..][0] && was[i..][1..] == was[i + 1..] && all[i..][1..] == all[i + 1..];
  }

  lemma {:induction false} BoostAfterStep(boost: s16, n: nat)
    ensures BoostAfter(boost, n + 1) == NextBoost(BoostAfter(boost, n))
    decreases n
  {
    if n != 0 {
      BoostAfterStep(NextBoost(boost), n - 1);
    }
  }
}
