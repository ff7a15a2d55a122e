/** The test access port controller of IEEE Std 1149.1, clause 6. */
module Tap {
  datatype State =
    | TestLogicReset | RunTestIdle
    | SelectDr | CaptureDr | ShiftDr | Exit1Dr | PauseDr | Exit2Dr | UpdateDr
    | SelectIr | CaptureIr | ShiftIr | Exit1Ir | PauseIr | Exit2Ir | UpdateIr

  function Next(s: State, tms: bool): State {
    match s
    case TestLogicReset => if tms then TestLogicReset else RunTestIdle
    case RunTestIdle => if tms then SelectDr else RunTestIdle
    case SelectDr => if tms then SelectIr else CaptureDr
    case CaptureDr => if tms then Exit1Dr else ShiftDr
    case ShiftDr => if tms then Exit1Dr else ShiftDr
    case Exit1Dr => if tms then UpdateDr else PauseDr
    case PauseDr => if tms then Exit2Dr else PauseDr
    case Exit2Dr => if tms then UpdateDr else ShiftDr
    case UpdateDr => if tms then SelectDr else RunTestIdle
    case SelectIr => if tms then TestLogicReset else CaptureIr
    case CaptureIr => if tms then Exit1Ir else ShiftIr
    case ShiftIr => if tms then Exit1Ir else ShiftIr
    case Exit1Ir => if tms then UpdateIr else PauseIr
    case PauseIr => if tms then Exit2Ir else PauseIr
    case Exit2Ir => if tms then UpdateIr else ShiftIr
    case UpdateIr => if tms then SelectDr else RunTestIdle
  }

  /** Clocks with TMS held high before the controller is reset */
  function DistanceToReset(s: State): nat {
    match s
    case TestLogicReset => 0
    case SelectIr => 1
    case SelectDr => 2
    case RunTestIdle | UpdateDr | UpdateIr => 3
    case Exit1Dr | Exit2Dr | Exit1Ir | Exit2Ir => 4
    case CaptureDr | ShiftDr | PauseDr | CaptureIr | ShiftIr | PauseIr => 5
  }

  lemma ResetNears(s: State)
    ensures DistanceToReset(Next(s, true)) == if s.TestLogicReset? then 0 else DistanceToReset(s) - 1
    ensures DistanceToReset(s) <= 5
    ensures DistanceToReset(s) == 0 <==> s.TestLogicReset?
  {
  }
}
