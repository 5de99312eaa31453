/**
 The per-racer state machine of a race room: one `Racer` value per participant,
 a status, three sentinel-encoded result fields and a free-text comment.

 Every transition is a pure function returning `(accepted, racer')`: when the
 guard on the current status holds it returns `true` and the updated racer,
 otherwise `false` and the racer exactly as it was.
 */
module Racers {
  import RacerStatus

  /** Sentinel for a result field that is not known. */
  const FIELD_UNKNOWN: int := -1
  /** `level` of a racer who died at a level nobody recorded. */
  const LEVEL_UNKNOWN_DEATH: int := 0
  /** `level` of a racer who completed the run. */
  const LEVEL_FINISHED: int := -2

  /**
   One participant of one race. `member` is the chat identity the racer wraps
   (opaque here); `time` and `igt` are hundredths of a second or
   FIELD_UNKNOWN; `level` is a level of death, LEVEL_UNKNOWN_DEATH,
   LEVEL_FINISHED or FIELD_UNKNOWN.
   */
  datatype Racer<M> = Racer(member: M, status: RacerStatus.Status, time: int, igt: int, level: int, comment: string)

  /** All three result fields hold FIELD_UNKNOWN. */
  predicate ResultsCleared<M>(r: Racer<M>)
  {
    r.time == FIELD_UNKNOWN && r.igt == FIELD_UNKNOWN && r.level == FIELD_UNKNOWN
  }

  /** `a` and `b` are the same racer apart from the status. */
  ghost predicate SameButStatus<M>(a: Racer<M>, b: Racer<M>)
  {
    a.member == b.member && a.time == b.time && a.igt == b.igt
    && a.level == b.level && a.comment == b.comment
  }

  /** A newly joined racer. */
  function NewRacer<M>(member: M): (r: Racer<M>)
    ensures r.member == member
    ensures r.status == RacerStatus.Unready
    ensures ResultsCleared(r)
    ensures r.comment == ""
  {
    Racer(member, RacerStatus.Unready, FIELD_UNKNOWN, FIELD_UNKNOWN, FIELD_UNKNOWN, "")
  }

  // Derived predicates, written with the enumeration order as the source does.

  predicate IsReady<M>(r: Racer<M>)
  {
    r.status == RacerStatus.Ready
  }

  predicate HasBegun<M>(r: Racer<M>)
  {
    RacerStatus.Value(r.status) > RacerStatus.Value(RacerStatus.Ready)
  }

  predicate IsRacing<M>(r: Racer<M>)
  {
    r.status == RacerStatus.Racing
  }

  predicate IsForfeit<M>(r: Racer<M>)
  {
    r.status == RacerStatus.Forfeit
  }

  predicate IsFinished<M>(r: Racer<M>)
  {
    r.status == RacerStatus.Finished
  }

  predicate IsDoneRacing<M>(r: Racer<M>)
  {
    RacerStatus.Value(r.status) > RacerStatus.Value(RacerStatus.Racing)
  }

  // The seven guarded transitions.

  /** unready --> ready */
  function Ready<M>(r: Racer<M>): (res: (bool, Racer<M>))
    ensures res.0 <==> r.status == RacerStatus.Unready
    ensures res.0 ==> res.1.status == RacerStatus.Ready && SameButStatus(res.1, r)
    ensures !res.0 ==> res.1 == r
  {
    if r.status == RacerStatus.Unready then (true, r.(status := RacerStatus.Ready)) else (false, r)
  }

  /** ready --> unready */
  function Unready<M>(r: Racer<M>): (res: (bool, Racer<M>))
    ensures res.0 <==> r.status == RacerStatus.Ready
    ensures res.0 ==> res.1.status == RacerStatus.Unready && SameButStatus(res.1, r)
    ensures !res.0 ==> res.1 == r
  {
    if r.status == RacerStatus.Ready then (true, r.(status := RacerStatus.Unready)) else (false, r)
  }

  /** ready --> racing, when the room's countdown ends */
  function BeginRace<M>(r: Racer<M>): (res: (bool, Racer<M>))
    ensures res.0 <==> r.status == RacerStatus.Ready
    ensures res.0 ==> res.1.status == RacerStatus.Racing && SameButStatus(res.1, r)
    ensures !res.0 ==> res.1 == r
  {
    if r.status == RacerStatus.Ready then (true, r.(status := RacerStatus.Racing)) else (false, r)
  }

  /** racing --> forfeit, and also finished --> forfeit to correct a wrong finish */
  function Forfeit<M>(r: Racer<M>, time: int): (res: (bool, Racer<M>))
    ensures res.0 <==> r.status in {RacerStatus.Racing, RacerStatus.Finished}
    ensures res.0 ==>
              && res.1.status == RacerStatus.Forfeit
              && res.1.time == time
              && res.1.level == LEVEL_UNKNOWN_DEATH
              && res.1.igt == FIELD_UNKNOWN
              && res.1.member == r.member
              && res.1.comment == r.comment
    ensures !res.0 ==> res.1 == r
  {
    if r.status == RacerStatus.Racing || r.status == RacerStatus.Finished then
      (true, r.(status := RacerStatus.Forfeit, time := time, level := LEVEL_UNKNOWN_DEATH, igt := FIELD_UNKNOWN))
    else
      (false, r)
  }

  /** forfeit --> racing, forgetting the results */
  function Unforfeit<M>(r: Racer<M>): (res: (bool, Racer<M>))
    ensures res.0 <==> r.status == RacerStatus.Forfeit
    ensures res.0 ==>
              && res.1.status == RacerStatus.Racing
              && ResultsCleared(res.1)
              && res.1.member == r.member
              && res.1.comment == r.comment
    ensures !res.0 ==> res.1 == r
  {
    if r.status == RacerStatus.Forfeit then
      (true, r.(status := RacerStatus.Racing, time := FIELD_UNKNOWN, igt := FIELD_UNKNOWN, level := FIELD_UNKNOWN))
    else
      (false, r)
  }

  /** racing --> finished, and also forfeit --> finished; `igt` is kept */
  function Finish<M>(r: Racer<M>, time: int): (res: (bool, Racer<M>))
    ensures res.0 <==> r.status in {RacerStatus.Racing, RacerStatus.Forfeit}
    ensures res.0 ==>
              && res.1.status == RacerStatus.Finished
              && res.1.time == time
              && res.1.level == LEVEL_FINISHED
              && res.1.igt == r.igt
              && res.1.member == r.member
              && res.1.comment == r.comment
    ensures !res.0 ==> res.1 == r
  {
    if r.status == RacerStatus.Racing || r.status == RacerStatus.Forfeit then
      (true, r.(status := RacerStatus.Finished, time := time, level := LEVEL_FINISHED))
    else
      (false, r)
  }

  /** finished --> racing, forgetting the results */
  function Unfinish<M>(r: Racer<M>): (res: (bool, Racer<M>))
    ensures res.0 <==> r.status == RacerStatus.Finished
    ensures res.0 ==>
              && res.1.status == RacerStatus.Racing
              && ResultsCleared(res.1)
              && res.1.member == r.member
              && res.1.comment == r.comment
    ensures !res.0 ==> res.1 == r
  {
    if r.status == RacerStatus.Finished then
      (true, r.(status := RacerStatus.Racing, time := FIELD_UNKNOWN, igt := FIELD_UNKNOWN, level := FIELD_UNKNOWN))
    else
      (false, r)
  }

  /** Replaces the comment, whatever the status. */
  function AddComment<M>(r: Racer<M>, comment: string): (res: Racer<M>)
    ensures res.comment == comment
    ensures res.member == r.member && res.status == r.status
    ensures res.time == r.time && res.igt == r.igt && res.level == r.level
  {
    r.(comment := comment)
  }

  /** A command a racer's state machine can be given. */
  datatype Op =
    | ReadyOp
    | UnreadyOp
    | BeginRaceOp
    | ForfeitOp(time: int)
    | UnforfeitOp
    | FinishOp(time: int)
    | UnfinishOp
    | CommentOp(text: string)

  /** Dispatches one command; a comment is always accepted. */
  function Apply<M>(r: Racer<M>, op: Op): (res: (bool, Racer<M>))
    ensures op.CommentOp? ==> res.0
    ensures !res.0 ==> res.1 == r
    ensures res.1.member == r.member
  {
    match op
    case ReadyOp => Ready(r)
    case UnreadyOp => Unready(r)
    case BeginRaceOp => BeginRace(r)
    case ForfeitOp(t) => Forfeit(r, t)
    case UnforfeitOp => Unforfeit(r)
    case FinishOp(t) => Finish(r, t)
    case UnfinishOp => Unfinish(r)
    case CommentOp(c) => (true, AddComment(r, c))
  }

  /**
   The results field invariant: results are cleared before a racer has a
   result, a finished racer carries LEVEL_FINISHED, and a forfeited racer
   never does.
   */
  predicate Consistent<M>(r: Racer<M>)
  {
    && (r.status in {RacerStatus.Unready, RacerStatus.Ready, RacerStatus.Racing} ==> ResultsCleared(r))
    && (r.status == RacerStatus.Finished ==> r.level == LEVEL_FINISHED)
    && (r.status == RacerStatus.Forfeit ==> r.level != LEVEL_FINISHED)
  }

  /**
   Feeds a sequence of commands to a racer, one after another; a refused
   command leaves the racer as it was, as it does for the caller of each
   transition.
   */
  function Run<M>(r: Racer<M>, ops: seq<Op>): (res: Racer<M>)
    ensures res.member == r.member
    ensures HasBegun(r) ==> HasBegun(res)
    ensures Consistent(r) ==> Consistent(res)
    decreases |ops|
  {
    if |ops| == 0 then r else Run(Apply(r, ops[0]).1, ops[1..])
  }
}
