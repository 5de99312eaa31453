/**
 The racer's status line, in a short (inline) and a long (detailed) form.

 The duration and level formatters belong to other modules of the bot and are
 not modelled: they are passed in as `clock` (hundredths of a second to text)
 and `levelName` (level number to text), about which nothing is assumed.
 The line is first laid out as a sequence of pieces and then rendered, so that
 which parts appear can be stated independently of how they are spelled.
 */
module StatusText {
  import opened Racers
  import RacerStatus

  /** Exclusive upper bound on level numbers that have a printable name. */
  const LEVEL_NAME_LIMIT: int := 22

  /** The fixed text shown for a status that has no finish time to show. */
  function StatusWord(s: RacerStatus.Status): string
  {
    match s
    case Unready => "Not ready."
    case Ready => "Ready!"
    case Racing => "Racing!"
    case Forfeit => "Forfeit!"
    case Finished => ""
  }

  /** One part of a status line. */
  datatype Piece =
    | Word(text: string)          // the status word
    | Clock(hundredths: int)      // a finish time
    | IgtNote(igt: int)           // " (igt X)" after a finish time
    | RtaOpen(time: int)          // " (rta X" opening a forfeit's details
    | LevelNote(level: int)       // ", <level name>" inside a forfeit's details
    | IgtItem(igt: int)           // ", igt X" inside a forfeit's details
    | RtaClose                    // ")" closing a forfeit's details
    | CommentNote(text: string)   // ": <comment>"

  /** The pieces reporting in-game time or real time, or the comment. */
  predicate IsDetail(p: Piece)
  {
    p.IgtNote? || p.RtaOpen? || p.LevelNote? || p.IgtItem? || p.RtaClose? || p.CommentNote?
  }

  /** Whether a level number has a printable name. */
  predicate NamedLevel(level: int)
  {
    0 < level < LEVEL_NAME_LIMIT
  }

  /** The parenthesised details of a forfeit: real time, level name if known, in-game time if known. */
  function ForfeitDetails<M>(r: Racer<M>): (ps: seq<Piece>)
    ensures |ps| >= 2 && ps[0] == RtaOpen(r.time) && ps[|ps| - 1] == RtaClose
    ensures forall i :: 0 <= i < |ps| ==> IsDetail(ps[i]) && !ps[i].CommentNote?
  {
    [RtaOpen(r.time)]
    + (if NamedLevel(r.level) then [LevelNote(r.level)] else [])
    + (if r.igt != FIELD_UNKNOWN then [IgtItem(r.igt)] else [])
    + [RtaClose]
  }

  /** The status line without its comment. */
  function Headline<M>(r: Racer<M>, short: bool): (ps: seq<Piece>)
    ensures |ps| >= 1
    ensures r.status == RacerStatus.Finished ==> ps[0] == Clock(r.time)
    ensures r.status != RacerStatus.Finished ==> ps[0] == Word(StatusWord(r.status))
    ensures short ==> |ps| == 1
    ensures forall i :: 1 <= i < |ps| ==> IsDetail(ps[i]) && !ps[i].CommentNote?
  {
    if r.status == RacerStatus.Finished then
      [Clock(r.time)] + (if r.igt != FIELD_UNKNOWN && !short then [IgtNote(r.igt)] else [])
    else
      [Word(StatusWord(r.status))] + (if r.status == RacerStatus.Forfeit && !short then ForfeitDetails(r) else [])
  }

  /** The pieces of the status line of `r`, in order. */
  function Layout<M>(r: Racer<M>, short: bool): (ps: seq<Piece>)
    ensures |ps| >= 1 && ps[0] == Headline(r, short)[0]
    ensures short ==> |ps| == 1
    ensures forall i :: 1 <= i < |ps| ==> IsDetail(ps[i])
  {
    Headline(r, short) + (if r.comment != "" && !short then [CommentNote(r.comment)] else [])
  }

  /** The inline form carries no real time, no in-game time, no level and no comment. */
  lemma ShortHasNoDetails<M>(r: Racer<M>)
    ensures forall p :: p in Layout(r, true) ==> !IsDetail(p)
  {
  }

  /** A comment piece appears exactly in the long form of a racer with a non-empty comment, and last. */
  lemma CommentShownIff<M>(r: Racer<M>, short: bool)
    ensures (exists c :: CommentNote(c) in Layout(r, short)) <==> !short && r.comment != ""
    ensures forall c :: CommentNote(c) in Layout(r, short) ==> c == r.comment
    ensures !short && r.comment != "" ==> Layout(r, short)[|Layout(r, short)| - 1] == CommentNote(r.comment)
  {
    var h := Headline(r, short);
    assert forall p :: p in h ==> !p.CommentNote?;
    if !short && r.comment != "" {
      assert CommentNote(r.comment) in Layout(r, short);
    }
  }

  /** A level name appears exactly in the long form of a forfeit whose level has a name. */
  lemma LevelShownIff<M>(r: Racer<M>, short: bool, l: int)
    ensures LevelNote(l) in Layout(r, short)
            <==> !short && r.status == RacerStatus.Forfeit && NamedLevel(r.level) && l == r.level
  {
    if !short && r.status == RacerStatus.Forfeit && NamedLevel(r.level) && l == r.level {
      assert ForfeitDetails(r)[1] == LevelNote(l);
      assert Layout(r, short)[2] == LevelNote(l);
    }
  }

  /**
   An in-game time appears exactly in the long form of a finished or
   forfeited racer whose in-game time is known.
   */
  lemma IgtShownIff<M>(r: Racer<M>, short: bool, g: int)
    ensures (IgtNote(g) in Layout(r, short) || IgtItem(g) in Layout(r, short))
            <==> && !short
                 && r.status in {RacerStatus.Finished, RacerStatus.Forfeit}
                 && r.igt != FIELD_UNKNOWN
                 && g == r.igt
  {
    if !short && r.status == RacerStatus.Forfeit && r.igt != FIELD_UNKNOWN && g == r.igt {
      var d := ForfeitDetails(r);
      assert d[|d| - 2] == IgtItem(g);
      assert IgtItem(g) in Layout(r, short);
    }
  }

  /** The real time of a forfeit appears exactly in its long form, and no other time does. */
  lemma RtaShownIff<M>(r: Racer<M>, short: bool, t: int)
    ensures RtaOpen(t) in Layout(r, short) <==> !short && r.status == RacerStatus.Forfeit && t == r.time
  {
    if !short && r.status == RacerStatus.Forfeit && t == r.time {
      assert Layout(r, short)[1] == RtaOpen(t);
    }
  }

  /** The text of one piece. */
  function RenderPiece(p: Piece, clock: int -> string, levelName: int -> string): string
  {
    match p
    case Word(w) => w
    case Clock(t) => clock(t)
    case IgtNote(g) => " (igt " + clock(g) + ")"
    case RtaOpen(t) => " (rta " + clock(t)
    case LevelNote(l) => ", " + levelName(l)
    case IgtItem(g) => ", igt " + clock(g)
    case RtaClose => ")"
    case CommentNote(c) => ": " + c
  }

  /** The text of a sequence of pieces, each piece's text in turn. */
  function Render(ps: seq<Piece>, clock: int -> string, levelName: int -> string): (s: string)
    ensures |ps| == 0 ==> s == ""
    ensures |ps| > 0 ==> RenderPiece(ps[0], clock, levelName) <= s
  {
    if |ps| == 0 then "" else RenderPiece(ps[0], clock, levelName) + Render(ps[1..], clock, levelName)
  }

  /** The status line; `short` picks the inline form. */
  function StatusStr<M>(r: Racer<M>, short: bool, clock: int -> string, levelName: int -> string): string
  {
    Render(Layout(r, short), clock, levelName)
  }

  /** Rendering distributes over concatenation of layouts. */
  lemma {:induction false} RenderAppend(a: seq<Piece>, b: seq<Piece>, clock: int -> string, levelName: int -> string)
    ensures Render(a + b, clock, levelName) == Render(a, clock, levelName) + Render(b, clock, levelName)
    decreases |a|
  {
    if |a| == 0 {
      assert a + b == b;
    } else {
      assert (a + b)[1..] == a[1..] + b;
      RenderAppend(a[1..], b, clock, levelName);
    }
  }

  /** The inline form is the long form cut short: it is always a prefix of it. */
  lemma ShortIsPrefixOfLong<M>(r: Racer<M>, clock: int -> string, levelName: int -> string)
    ensures StatusStr(r, true, clock, levelName) <= StatusStr(r, false, clock, levelName)
  {
    var short := Layout(r, true);
    var long := Layout(r, false);
    assert long == short + long[1..];
    RenderAppend(short, long[1..], clock, levelName);
  }

  /**
   The inline form ignores the comment, the in-game time and the level:
   changing any of them does not change it.
   */
  lemma ShortIgnoresDetails<M>(r: Racer<M>, comment: string, igt: int, level: int,
                               clock: int -> string, levelName: int -> string)
    ensures StatusStr(r.(comment := comment, igt := igt, level := level), true, clock, levelName)
            == StatusStr(r, true, clock, levelName)
  {
  }

  /** The inline form of a racer without a finish time is exactly its status word. */
  lemma ShortOfUnfinished<M>(r: Racer<M>, clock: int -> string, levelName: int -> string)
    requires r.status != RacerStatus.Finished
    ensures StatusStr(r, true, clock, levelName) == StatusWord(r.status)
  {
  }

  /**
   The long form ends in ": " and the comment exactly when the comment is
   non-empty; what comes before does not depend on the comment.
   */
  lemma LongCommentSuffix<M>(r: Racer<M>, clock: int -> string, levelName: int -> string)
    ensures StatusStr(r, false, clock, levelName)
            == StatusStr(r.(comment := ""), false, clock, levelName)
               + (if r.comment == "" then "" else ": " + r.comment)
  {
    var bare := Layout(r.(comment := ""), false);
    if r.comment != "" {
      assert Layout(r, false) == bare + [CommentNote(r.comment)];
      RenderAppend(bare, [CommentNote(r.comment)], clock, levelName);
    } else {
      assert r.(comment := "") == r;
    }
  }

  /** A finished racer's line opens with the finish time. */
  lemma FinishedShowsTime<M>(r: Racer<M>, short: bool, clock: int -> string, levelName: int -> string)
    requires r.status == RacerStatus.Finished
    ensures clock(r.time) <= StatusStr(r, short, clock, levelName)
  {
  }

  /** A forfeited racer's long line opens with the forfeit word and the real time. */
  lemma ForfeitShowsRta<M>(r: Racer<M>, clock: int -> string, levelName: int -> string)
    requires r.status == RacerStatus.Forfeit
    ensures "Forfeit! (rta " + clock(r.time) <= StatusStr(r, false, clock, levelName)
  {
    var ps := Layout(r, false);
    var opening := [Word("Forfeit!"), RtaOpen(r.time)];
    assert ps == opening + ps[2..];
    RenderAppend(opening, ps[2..], clock, levelName);
    assert opening[1..] == [RtaOpen(r.time)];
    assert Render(opening, clock, levelName) == "Forfeit!" + (" (rta " + clock(r.time) + "");
  }
}
