/** The Compute Engine values the core of gce/gcemanager.go handles, reduced
    to the fields it reads. Everything else the API returns is opaque. */
module GceTypes {

  /** A snapshot; only its name is inspected. */
  datatype Snapshot = Snapshot(id: nat, name: string)

  /** A persistent disk; `sourceSnapshot` is the URL or path it was created from. */
  datatype Disk = Disk(name: string, sizeGb: int, sourceSnapshot: string, status: string)

  /** An operation handle returned by a mutating API call. */
  datatype Operation = Operation(id: nat)

  /** The identity of an error returned by a Compute Engine API call. */
  type ApiError = nat

  /** The errors the core returns. Message texts are not modelled. */
  datatype Error =
    | ApiFailure(cause: ApiError)  // an API call failed; wrapped by gceError
    | Timeout                      // NewVm or NewDisk: the readiness probe gave up
    | NotReady                     // a test checker: its probe gave up
    | NoSnapshotFound              // no snapshot name contains the prefix
}
