/** The phases of a Kubernetes pod. */
module PodPhases {
  datatype Phase = Pending | Running | Succeeded | Failed | Unknown

  /** A pod in such a phase never runs again. */
  predicate Terminal(phase: Phase) { phase.Failed? || phase.Succeeded? }
}
