/** The lifecycle of a context record: a state machine with an explicit table of legal transitions. */
module Lifecycle {
  datatype State = Discovered | Profiling | Enriching | Generated | PendingValidation | Validated
                 | Active | Degraded | Stale | Rebuilding | Failed | Superseded

  /** `LEGAL_TRANSITIONS` */
  function NextStates(s: State): set<State> {
    match s
    case Discovered => {Profiling, Failed}
    case Profiling => {Enriching, Failed}
    case Enriching => {Generated, Failed}
    case Generated => {PendingValidation, Active, Failed}
    case PendingValidation => {Validated, Stale, Failed}
    case Validated => {Active, Stale}
    case Active => {Stale, Rebuilding, Degraded, Superseded}
    case Degraded => {Active, Rebuilding, Stale, Failed}
    case Stale => {Rebuilding, Superseded}
    case Rebuilding => {Profiling, Active, Degraded, Failed}
    case Failed => {Rebuilding, Superseded}
    case Superseded => {}
  }

  /** The table read backwards: from which states each state is reached. Nothing leaves SUPERSEDED. */
  lemma ReachedFrom(s: State)
    ensures Discovered !in NextStates(s)
    ensures Profiling in NextStates(s) <==> s in {Discovered, Rebuilding}
    ensures Enriching in NextStates(s) <==> s == Profiling
    ensures Generated in NextStates(s) <==> s == Enriching
    ensures PendingValidation in NextStates(s) <==> s == Generated
    ensures Validated in NextStates(s) <==> s == PendingValidation
    ensures Active in NextStates(s) <==> s in {Generated, Validated, Degraded, Rebuilding}
    ensures Degraded in NextStates(s) <==> s in {Active, Rebuilding}
    ensures Stale in NextStates(s) <==> s in {PendingValidation, Validated, Active, Degraded}
    ensures Rebuilding in NextStates(s) <==> s in {Active, Degraded, Stale, Failed}
    ensures Failed in NextStates(s) <==>
            s in {Discovered, Profiling, Enriching, Generated, PendingValidation, Degraded, Rebuilding}
    ensures Superseded in NextStates(s) <==> s in {Active, Stale, Failed}
    ensures NextStates(s) == {} <==> s == Superseded
  {
  }
}
