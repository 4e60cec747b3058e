/** What the operations on files share. */
module OperationContext {

  // How a name that is taken is settled.
  datatype Policy = Fail | Skip | KeepBoth | Replace | Ask

  // How an operation ended: well, or with an error of the system or a cancellation.
  datatype Outcome = Done | Failed(errno: int)

  const ECANCELED: int := 125
}
