# Racer state machine of the necrobot race bot

The project models one participant of a race room, the `Racer` class of
`necrobot/race/racer.py`. A racer has:

- a status: unready, ready, racing, forfeit or finished. These are integer
  enumeration values 1 to 5.
- a finish time (`time`) and an in-game time (`igt`), both in hundredths of a
  second.
- a level of death (`level`).
- a free-text comment.

The result fields use sentinels:

- `FIELD_UNKNOWN = -1` for an unknown value.
- `LEVEL_UNKNOWN_DEATH = 0` for a death at an unrecorded level.
- `LEVEL_FINISHED = -2` for a completed run.

The seven guarded transitions are pure functions that return
`(accepted, racer')`:

- `ready`, `unready` and `begin_race`;
- `forfeit(time)` and `unforfeit`;
- `finish(time)` and `unfinish`.

When the guard on the current status fails, each one returns `false` and the
racer unchanged. `add_comment` always replaces the comment.

Files:

- `racer_status.dfy` (module `RacerStatus`) holds the status enumeration and
  its integer values.
- `racer.dfy` (module `Racers`) holds the racer, the transitions and the
  derived predicates (`is_ready`, `has_begun`, ...). It also has a command
  datatype `Op` with `Apply`, and `Run`, which feeds a whole sequence of
  commands to a racer.
- `status_text.dfy` (module `StatusText`) holds the short and long status
  lines. A line is first laid out as a sequence of pieces and then rendered,
  so the model can state which parts appear separately from how they are
  spelled. The duration formatter and the level-name formatter are not part
  of this model. They are parameters (`clock`, `levelName`), and nothing is
  assumed about them.
- `racer_properties.dfy` (module `RacerProperties`) holds the transition
  graph, the ordering behind `has_begun` and `is_done_racing`, the
  results-field invariant, the undo round trips and the properties of whole
  command sequences.

The code and its own transition table (the comment at
`necrobot/race/racer.py:26-30`) disagree, and the model follows the code.
Besides the documented edges, the guards also allow finished → forfeit
(line 126) and forfeit → finished (line 144). `RacerProperties.Edge` is the
code's graph. `RacerProperties.UndocumentedEdges` proves that these two
corrections between the terminal statuses are the only additions.

## Model

| member | source | states |
|---|---|---|
| `RacerProperties.ValueOrder` | necrobot/race/racer.py:12-17 | the five statuses have distinct integer values, increasing unready < ready < racing < forfeit < finished |
| `Racers.NewRacer` | necrobot/race/racer.py:34-40 | a new racer is unready, with time, igt and level all FIELD_UNKNOWN and an empty comment |
| `Racers.Ready` | necrobot/race/racer.py:107-111 | accepted exactly from unready; then the status is ready and nothing else changes; when refused the racer is unchanged |
| `Racers.Unready` | necrobot/race/racer.py:113-117 | accepted exactly from ready; then the status is unready and nothing else changes; when refused the racer is unchanged |
| `Racers.BeginRace` | necrobot/race/racer.py:119-123 | accepted exactly from ready; then the status is racing and nothing else changes; when refused the racer is unchanged |
| `Racers.Forfeit` | necrobot/race/racer.py:125-132 | accepted exactly from racing or finished; then status forfeit, time the given time, level LEVEL_UNKNOWN_DEATH, igt FIELD_UNKNOWN, comment kept; when refused the racer is unchanged |
| `Racers.Unforfeit` | necrobot/race/racer.py:134-141 | accepted exactly from forfeit; then status racing with all three result fields FIELD_UNKNOWN and the comment kept; when refused the racer is unchanged |
| `Racers.Finish` | necrobot/race/racer.py:143-149 | accepted exactly from racing or forfeit; then status finished, time the given time, level LEVEL_FINISHED, igt and comment kept; when refused the racer is unchanged |
| `Racers.Unfinish` | necrobot/race/racer.py:151-158 | accepted exactly from finished; then status racing with all three result fields FIELD_UNKNOWN and the comment kept; when refused the racer is unchanged |
| `Racers.AddComment` | necrobot/race/racer.py:160-161 | the comment becomes the given text; status, time, igt, level and member are unchanged |
| `Racers.Run` | necrobot/race/racer.py:107-161 | over any sequence of calls the member is kept, a racer who has begun stays begun, and the results-field invariant is kept |
| `RacerProperties.AcceptedStepFollowsEdge` | necrobot/race/racer.py:107-161 | every accepted transition moves along an edge of the code's graph to the status named by the call; a comment never changes the status |
| `RacerProperties.EdgesAreExactlyTheAcceptedSteps` | necrobot/race/racer.py:107-158 | a status change from a racer's status is an edge of the graph if and only if some transition call performs it |
| `RacerProperties.UndocumentedEdges` | necrobot/race/racer.py:26-30 | the code's graph is the documented table plus exactly finished → forfeit and forfeit → finished |
| `RacerProperties.HasBegunIff` | necrobot/race/racer.py:87-89 | `has_begun`, defined by enumeration order, holds exactly for racing, forfeit and finished |
| `RacerProperties.IsDoneRacingIff` | necrobot/race/racer.py:103-105 | `is_done_racing`, defined by enumeration order, holds exactly for forfeit and finished; it implies `has_begun`; not begun means ready or unready |
| `RacerProperties.BegunNeverReturns` | necrobot/race/racer.py:107-161 | no call takes a racer who has begun back to unready or ready |
| `RacerProperties.OnlyBeginRaceBegins` | necrobot/race/racer.py:119-123 | the only call that makes a racer who has not begun into one who has is begin_race from ready |
| `RacerProperties.NewRacerIsConsistent` | necrobot/race/racer.py:34-40 | a new racer has not begun, has cleared results and no comment, and satisfies the results-field invariant |
| `RacerProperties.StepKeepsConsistent` | necrobot/race/racer.py:107-161 | every call keeps the invariant: results cleared while unready, ready or racing; LEVEL_FINISHED when finished; never LEVEL_FINISHED when forfeit |
| `RacerProperties.UndoClearsResults` | necrobot/race/racer.py:134-158 | an accepted unforfeit or unfinish always leaves a racing racer with all result fields FIELD_UNKNOWN |
| `RacerProperties.ReadyRoundTrip` | necrobot/race/racer.py:107-117 | ready then unready, or unready then ready, gives back the same racer |
| `RacerProperties.FinishUnfinishFinish` | necrobot/race/racer.py:143-158 | from racing or forfeit, finish, unfinish, finish at the same time equals one finish if and only if igt was FIELD_UNKNOWN |
| `RacerProperties.ForfeitUnforfeit` | necrobot/race/racer.py:125-141 | from racing, forfeit then unforfeit are both accepted and give the racer back with cleared results; for a consistent racer, exactly the original |
| `RacerProperties.UnfinishFinish` | necrobot/race/racer.py:143-158 | a consistent finished racer is restored by unfinish then finish at its own time if and only if its igt was FIELD_UNKNOWN |
| `RacerProperties.CommentCommutes` | necrobot/race/racer.py:160-161 | commenting before or after any transition gives the same acceptance and the same racer |
| `RacerProperties.CommentOverwrites` | necrobot/race/racer.py:160-161 | a later comment replaces an earlier one |
| `RacerProperties.RunComment` | necrobot/race/racer.py:107-161 | after any sequence of calls the comment is the last one given, or the original one if none was given |
| `RacerProperties.RunBeginsOnlyByBeginRace` | necrobot/race/racer.py:87-123 | a racer who has not begun has begun after a sequence of calls only if the sequence contains begin_race |
| `RacerProperties.RunFromNewRacer` | necrobot/race/racer.py:34-158 | whatever calls a new racer receives, the results-field invariant holds and the member is kept |
| `RacerProperties.RaceScenario` | necrobot/race/racer.py:107-149 | ready, begin_race, finish(1234) ends finished at 1234 with LEVEL_FINISHED; with forfeit(5000) instead it ends forfeit at 5000 with LEVEL_UNKNOWN_DEATH; begin_race on an unready racer is refused |
| `StatusText.Layout` | necrobot/race/racer.py:58-77 | the line opens with the finish time when finished, otherwise with the status word; the short form has only that opening; every later piece is a detail |
| `StatusText.ShortHasNoDetails` | necrobot/race/racer.py:58-77 | the short form has no in-game time, real time, level name or comment |
| `StatusText.CommentShownIff` | necrobot/race/racer.py:74-75 | a comment piece appears exactly in the long form when the comment is non-empty; it is the racer's comment and comes last |
| `StatusText.LevelShownIff` | necrobot/race/racer.py:66-69 | a level name appears exactly in the long form of a forfeit whose level satisfies 0 < level < 22 |
| `StatusText.IgtShownIff` | necrobot/race/racer.py:60-71 | an in-game time appears exactly in the long form of a finished or forfeit racer whose igt is not FIELD_UNKNOWN |
| `StatusText.RtaShownIff` | necrobot/race/racer.py:66-72 | the "(rta ...)" block appears exactly in the long form of a forfeit, and shows the racer's time |
| `StatusText.ShortIsPrefixOfLong` | necrobot/race/racer.py:58-77 | the short line is always a prefix of the long line |
| `StatusText.ShortIgnoresDetails` | necrobot/race/racer.py:58-77 | changing the comment, the igt or the level never changes the short line |
| `StatusText.ShortOfUnfinished` | necrobot/race/racer.py:19-24 | for a racer that is not finished, the short line is exactly its status word |
| `StatusText.LongCommentSuffix` | necrobot/race/racer.py:74-75 | the long line is the line without the comment, followed by ": " and the comment exactly when the comment is non-empty |
| `StatusText.FinishedShowsTime` | necrobot/race/racer.py:60-61 | a finished racer's line, short or long, opens with the formatted finish time |
| `StatusText.ForfeitShowsRta` | necrobot/race/racer.py:65-67 | a forfeit racer's long line opens with "Forfeit! (rta " and the formatted time |

## Left out

- `Racer.name` and `Racer.id` (racer.py:42-48) read fields of the chat member object. The member is an opaque type parameter here, so these reads are not modelled.
- `time_str` (racer.py:79-81) only calls the duration formatter, which is not part of this model.
- The duration formatter (`racetime.to_str`) and the level-name formatter (`level.to_str`) are not part of this model. They are function parameters of the status-line functions, and nothing is assumed about their output.
- `igt` and `level` are also written by callers outside the class, for example when an in-game time or a level of death is reported. Those writes are not part of this model. So `Consistent` constrains only what the class's own operations guarantee, and the status-line lemmas hold for any values of these fields.
- `necrobot.py` (command dispatch, database access, coroutines, channel permissions, the daily challenge) and `necrobot/util/writechannel.py` (log export to a file) are chat and storage I/O. They are not part of this model. The race room aggregate, the countdown and the daily challenge scheduler are not part of this model either, because their code is not part of the racer class.
- Python's unbounded integers match Dafny's `int`, so no wrap-around is modelled.
