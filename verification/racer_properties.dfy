/**
 Properties of the racer state machine: the transition graph it follows, the
 ordering the derived predicates rely on, the undo round trips, and what a
 whole sequence of commands can and cannot do.
 */
module RacerProperties {
  import opened Racers
  import RacerStatus

  /** The allowed transitions as the class documents them (unready/ready, ready/racing, racing/forfeit, racing/finished). */
  predicate DocumentedEdge(a: RacerStatus.Status, b: RacerStatus.Status)
  {
    || (a == RacerStatus.Unready && b == RacerStatus.Ready)
    || (a == RacerStatus.Ready && b == RacerStatus.Unready)
    || (a == RacerStatus.Ready && b == RacerStatus.Racing)
    || (a == RacerStatus.Racing && b == RacerStatus.Forfeit)
    || (a == RacerStatus.Forfeit && b == RacerStatus.Racing)
    || (a == RacerStatus.Racing && b == RacerStatus.Finished)
    || (a == RacerStatus.Finished && b == RacerStatus.Racing)
  }

  /**
   The transitions the code allows: the documented ones plus the two
   corrections between the terminal statuses, finished to forfeit and
   forfeit to finished.
   */
  predicate Edge(a: RacerStatus.Status, b: RacerStatus.Status)
  {
    || DocumentedEdge(a, b)
    || (a == RacerStatus.Finished && b == RacerStatus.Forfeit)
    || (a == RacerStatus.Forfeit && b == RacerStatus.Finished)
  }

  /** The status a command moves to when it is accepted; a comment keeps the status. */
  function Target(op: Op, s: RacerStatus.Status): RacerStatus.Status
  {
    match op
    case ReadyOp => RacerStatus.Ready
    case UnreadyOp => RacerStatus.Unready
    case BeginRaceOp => RacerStatus.Racing
    case ForfeitOp(_) => RacerStatus.Forfeit
    case UnforfeitOp => RacerStatus.Racing
    case FinishOp(_) => RacerStatus.Finished
    case UnfinishOp => RacerStatus.Racing
    case CommentOp(_) => s
  }

  /** Every accepted status change follows an edge of the graph, and a comment changes no status. */
  lemma AcceptedStepFollowsEdge<M>(r: Racer<M>, op: Op)
    ensures Apply(r, op).0 ==> Apply(r, op).1.status == Target(op, r.status)
    ensures Apply(r, op).0 && !op.CommentOp? ==> Edge(r.status, Apply(r, op).1.status)
    ensures op.CommentOp? ==> Apply(r, op).1.status == r.status
  {
  }

  /**
   Conversely, every edge of the graph is taken by some command from every
   racer in its source status: the guards are exactly the graph.
   */
  lemma EdgesAreExactlyTheAcceptedSteps<M>(r: Racer<M>, b: RacerStatus.Status)
    ensures Edge(r.status, b)
            <==> exists op: Op :: !op.CommentOp? && Apply(r, op).0 && Apply(r, op).1.status == b
  {
    if Edge(r.status, b) {
      var op :=
        match b
        case Unready => UnreadyOp
        case Ready => ReadyOp
        case Racing => if r.status == RacerStatus.Ready then BeginRaceOp
                       else if r.status == RacerStatus.Forfeit then UnforfeitOp
                       else UnfinishOp
        case Forfeit => ForfeitOp(0)
        case Finished => FinishOp(0);
      assert !op.CommentOp? && Apply(r, op).0 && Apply(r, op).1.status == b;
    }
  }

  /** The code's graph is the documented one plus exactly the two corrections between terminal statuses. */
  lemma UndocumentedEdges(a: RacerStatus.Status, b: RacerStatus.Status)
    ensures Edge(a, b) && !DocumentedEdge(a, b)
            <==> (a, b) == (RacerStatus.Finished, RacerStatus.Forfeit) || (a, b) == (RacerStatus.Forfeit, RacerStatus.Finished)
  {
  }

  /** The enumeration values are distinct and increase in declaration order. */
  lemma ValueOrder(a: RacerStatus.Status, b: RacerStatus.Status)
    ensures RacerStatus.Value(a) == RacerStatus.Value(b) <==> a == b
    ensures RacerStatus.Value(RacerStatus.Unready) < RacerStatus.Value(RacerStatus.Ready) < RacerStatus.Value(RacerStatus.Racing)
            < RacerStatus.Value(RacerStatus.Forfeit) < RacerStatus.Value(RacerStatus.Finished)
  {
  }

  /** "Has begun" by enumeration order means racing, forfeited or finished. */
  lemma HasBegunIff<M>(r: Racer<M>)
    ensures HasBegun(r) <==> r.status in {RacerStatus.Racing, RacerStatus.Forfeit, RacerStatus.Finished}
    ensures HasBegun(r) <==> IsRacing(r) || IsForfeit(r) || IsFinished(r)
  {
  }

  /** "Done racing" by enumeration order means forfeited or finished. */
  lemma IsDoneRacingIff<M>(r: Racer<M>)
    ensures IsDoneRacing(r) <==> r.status in {RacerStatus.Forfeit, RacerStatus.Finished}
    ensures IsDoneRacing(r) <==> IsForfeit(r) || IsFinished(r)
    ensures IsDoneRacing(r) ==> HasBegun(r)
    ensures !HasBegun(r) <==> IsReady(r) || r.status == RacerStatus.Unready
  {
  }

  /** No accepted command takes a racer who has begun back to unready or ready. */
  lemma BegunNeverReturns<M>(r: Racer<M>, op: Op)
    requires HasBegun(r)
    ensures HasBegun(Apply(r, op).1)
    ensures Apply(r, op).1.status !in {RacerStatus.Unready, RacerStatus.Ready}
  {
  }

  /** Only the start of the race turns a racer who has not begun into one who has. */
  lemma OnlyBeginRaceBegins<M>(r: Racer<M>, op: Op)
    requires !HasBegun(r) && HasBegun(Apply(r, op).1)
    ensures op == BeginRaceOp && r.status == RacerStatus.Ready
  {
  }

  /** A racer starts out unready with no results and no comment, as a consistent racer. */
  lemma NewRacerIsConsistent<M>(m: M)
    ensures Consistent(NewRacer(m)) && !HasBegun(NewRacer(m))
    ensures ResultsCleared(NewRacer(m)) && NewRacer(m).comment == ""
  {
  }

  /** Every command keeps the results-field invariant. */
  lemma StepKeepsConsistent<M>(r: Racer<M>, op: Op)
    requires Consistent(r)
    ensures Consistent(Apply(r, op).1)
  {
  }

  /** Undoing a forfeit or a finish always clears the results. */
  lemma UndoClearsResults<M>(r: Racer<M>)
    ensures Unforfeit(r).0 ==> ResultsCleared(Unforfeit(r).1) && IsRacing(Unforfeit(r).1)
    ensures Unfinish(r).0 ==> ResultsCleared(Unfinish(r).1) && IsRacing(Unfinish(r).1)
  {
  }

  /** Readying up and un-readying undo each other. */
  lemma ReadyRoundTrip<M>(r: Racer<M>)
    ensures r.status == RacerStatus.Unready ==> Unready(Ready(r).1) == (true, r)
    ensures r.status == RacerStatus.Ready ==> Ready(Unready(r).1) == (true, r)
  {
  }

  /**
   Finishing, undoing the finish and finishing again at the same time gives
   the racer a single finish gives, exactly when no in-game time was
   recorded: undoing the finish forgets the in-game time, which finishing
   does not restore.
   */
  lemma FinishUnfinishFinish<M>(r: Racer<M>, t: int)
    requires r.status in {RacerStatus.Racing, RacerStatus.Forfeit}
    ensures Finish(Unfinish(Finish(r, t).1).1, t) == Finish(r, t) <==> r.igt == FIELD_UNKNOWN
  {
    var once := Finish(r, t).1;
    var again := Finish(Unfinish(once).1, t).1;
    assert again.igt == FIELD_UNKNOWN;
    assert once.igt == r.igt;
  }

  /** Forfeiting then undoing the forfeit leaves a racing racer with no results and the same comment. */
  lemma ForfeitUnforfeit<M>(r: Racer<M>, t: int)
    requires r.status == RacerStatus.Racing
    ensures Forfeit(r, t).0 && Unforfeit(Forfeit(r, t).1).0
    ensures Unforfeit(Forfeit(r, t).1).1 == r.(time := FIELD_UNKNOWN, igt := FIELD_UNKNOWN, level := FIELD_UNKNOWN)
    ensures Consistent(r) ==> Unforfeit(Forfeit(r, t).1).1 == r
  {
  }

  /** Undoing a finish and finishing again at the same time restores a consistent finished racer without in-game time. */
  lemma UnfinishFinish<M>(r: Racer<M>)
    requires r.status == RacerStatus.Finished && Consistent(r)
    ensures Finish(Unfinish(r).1, r.time) == (true, r) <==> r.igt == FIELD_UNKNOWN
  {
  }

  /** Comments and status changes are independent: commenting first or last gives the same racer. */
  lemma CommentCommutes<M>(r: Racer<M>, op: Op, c: string)
    requires !op.CommentOp?
    ensures Apply(AddComment(r, c), op).0 == Apply(r, op).0
    ensures Apply(AddComment(r, c), op).1 == AddComment(Apply(r, op).1, c)
  {
  }

  /** A later comment replaces an earlier one. */
  lemma CommentOverwrites<M>(r: Racer<M>, a: string, b: string)
    ensures AddComment(AddComment(r, a), b) == AddComment(r, b)
  {
  }

  /** The text of the last comment command in `ops`, or `current` when there is none. */
  function LastComment(ops: seq<Op>, current: string): string
    decreases |ops|
  {
    if |ops| == 0 then current
    else LastComment(ops[1..], if ops[0].CommentOp? then ops[0].text else current)
  }

  /** After any sequence of commands the comment is the last one given, or the original. */
  lemma {:induction false} RunComment<M>(r: Racer<M>, ops: seq<Op>)
    ensures Run(r, ops).comment == LastComment(ops, r.comment)
    decreases |ops|
  {
    if |ops| > 0 {
      RunComment(Apply(r, ops[0]).1, ops[1..]);
    }
  }

  /** A racer who has not begun begins in a sequence of commands only if the sequence starts the race. */
  lemma {:induction false} RunBeginsOnlyByBeginRace<M>(r: Racer<M>, ops: seq<Op>)
    requires !HasBegun(r) && HasBegun(Run(r, ops))
    ensures BeginRaceOp in ops
    decreases |ops|
  {
    var next := Apply(r, ops[0]).1;
    if HasBegun(next) {
      OnlyBeginRaceBegins(r, ops[0]);
    } else {
      RunBeginsOnlyByBeginRace(next, ops[1..]);
    }
  }

  /** Whatever commands a new racer is given, the results-field invariant holds. */
  lemma RunFromNewRacer<M>(m: M, ops: seq<Op>)
    ensures Consistent(Run(NewRacer(m), ops))
    ensures Run(NewRacer(m), ops).member == m
  {
    NewRacerIsConsistent(m);
  }

  /**
   A racer who readies up, starts, and finishes at 12.34 seconds is finished
   with that time and the finish sentinel; a racer who forfeits at 50 seconds
   instead is forfeited with an unknown level of death.
   */
  lemma RaceScenario<M>(m: M)
    ensures var a := Run(NewRacer(m), [ReadyOp, BeginRaceOp, FinishOp(1234)]);
            a.status == RacerStatus.Finished && a.time == 1234 && a.level == LEVEL_FINISHED
    ensures var b := Run(NewRacer(m), [ReadyOp, BeginRaceOp, ForfeitOp(5000)]);
            b.status == RacerStatus.Forfeit && b.time == 5000 && b.level == LEVEL_UNKNOWN_DEATH
    ensures var c := Run(NewRacer(m), [BeginRaceOp, FinishOp(1234)]);
            c.status == RacerStatus.Unready && ResultsCleared(c)
  {
    var r0 := NewRacer(m);
    var r1 := Apply(r0, ReadyOp).1;
    var r2 := Apply(r1, BeginRaceOp).1;
    assert [ReadyOp, BeginRaceOp, FinishOp(1234)][1..] == [BeginRaceOp, FinishOp(1234)];
    assert [BeginRaceOp, FinishOp(1234)][1..] == [FinishOp(1234)];
    assert [ReadyOp, BeginRaceOp, ForfeitOp(5000)][1..] == [BeginRaceOp, ForfeitOp(5000)];
    assert [BeginRaceOp, ForfeitOp(5000)][1..] == [ForfeitOp(5000)];
    assert Run(r2, [FinishOp(1234)]) == Apply(r2, FinishOp(1234)).1;
    assert Run(r2, [ForfeitOp(5000)]) == Apply(r2, ForfeitOp(5000)).1;
    assert Run(r0, [FinishOp(1234)]) == r0;
  }
}
