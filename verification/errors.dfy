/**
 Go's `error` results and nil-able values. An `Error` keeps only what the
 model needs to tell errors apart: which path a failure is about, or an
 opaque reason supplied by a collaborator (network, disk, codec).
 */
module Errors {

  datatype Option<+T> = None | Some(value: T)

  datatype Error =
    | Bogus(path: string)       // CloneRepo: "<path> seems like a bogus directory"
    | NotExist(path: string)    // os.Open of a path that is not there
    | BadStatus(code: int)      // a non-200 listing page, in the corrected discovery only
    | Io(reason: string)        // any failure reported by an abstracted collaborator
}
