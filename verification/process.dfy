/**
 * The backend process handle. In the source a session holds a `*exec.Cmd`
 * value; the table only ever compares these handles for identity and
 * checks them against nil, so a handle is modelled as an opaque identity
 * with an explicit nil.
 */
module Process {

  /** `NilHandle` is Go's nil; `Cmd(id)` is a live `*exec.Cmd`. */
  datatype Handle = NilHandle | Cmd(id: nat)
}
