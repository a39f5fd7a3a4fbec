/** The fixed constants of the effect. */
module Settings {

  /** The rotating messages, shown in this order. */
  const Messages: seq<string> := [
    "WAKE UP, NEO",
    "FOLLOW THE WHITE RABBIT",
    "THE MATRIX HAS YOU",
    "SYSTEM ONLINE"
  ]

  /** Cells drawn per firing column: one head and Trail - 1 trail cells. */
  const Trail: nat := 6

  /** Seconds a completed message stays on screen before it dissolves. */
  const HoldSeconds: real := 4.0

  /** What each frame adds to a column's timer. */
  const Tick: real := 0.05

  /** The emphasis attribute a message cell is drawn with. */
  datatype Emphasis = Bold | Normal | Dim

  /** Fade stages of a locked column, indexed by its stage: bright, normal, dim. */
  const FadeSteps: seq<Emphasis> := [Bold, Normal, Dim]
}
