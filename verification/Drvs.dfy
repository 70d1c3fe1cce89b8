/**
 Derivations: identifiers, build states and the record that the evaluator and the
 database hand to the build graph.
 */
module Drvs {

  import opened Wrappers

  /** A derivation is known by its store path. */
  datatype DrvId = DrvId(path: string)

  datatype BuildResult = Success | Failure

  datatype InterruptionKind = OutOfMemory | Timeout | Cancelled | ProcessDeath | SchedulerDeath

  datatype BuildState =
    | Queued
    | Buildable
    | FailedRetry
    | Building
    | Completed(result: BuildResult)
    | Interrupted(kind: InterruptionKind)
    | TransitiveFailure
    | Blocked
    | UnsatisfiableRequirements

  const SUCCEEDED := Completed(Success)
  const FAILED := Completed(Failure)

  /** The descriptive fields that the graph only copies around. */
  datatype Meta = Meta(system: string, requiredSystemFeatures: Option<string>, isFod: bool)

  datatype Drv = Drv(id: DrvId, meta: Meta, state: BuildState)
}
