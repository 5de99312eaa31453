/** The phases of a racer, an integer enumeration valued 1 to 5. */
module RacerStatus {

  /** The racer's phase; declaration order matches the integer values 1..5. */
  datatype Status = Unready | Ready | Racing | Forfeit | Finished

  /** The integer value the status carries as an integer enumeration. */
  function Value(s: Status): (v: int)
    ensures 1 <= v <= 5
  {
    match s
    case Unready => 1
    case Ready => 2
    case Racing => 3
    case Forfeit => 4
    case Finished => 5
  }
}
