/**
 * Failure-compatible wrappers and the error taxonomy shared by every
 * component of the rubbish bin: the journal, the access gate, and the
 * toss, wipe, restore, status and info commands.
 */
module Results {

  datatype Option<+T> = None | Some(value: T)

  /** Every error the modelled commands can report, named after the message
      the program formats for it. Wrapping errors keep their cause. */
  datatype Error =
    // journal
    | JournalPathNotSet
    | OpenFailed
    | NotInitialized
    | TxnFailed
    | KeyNotFound(key: string)
    | CloseFailed
    | AllItemsFailed(cause: Error)
    // access gate
    | CannotAccessItem(item: string)
    | NoWritePermissionItem(item: string)
    | CannotAccessParent(item: string)
    | NoWritePermissionParent(item: string)
    // toss
    | NoFilesToToss
    | InvalidRubbish(file: string)
    | JournalAddFailed(cause: Error)
    | CompensationFailed(item: string, cause: Error)
    | MoveFailed(item: string)
    | TossFailed(file: string, cause: Error)
    // wipe
    | RetrieveFailed(cause: Error)
    | NotInRubbish(file: string)
    | ConfirmFailed(item: string)
    | DeleteRecordFailed(item: string, cause: Error)
    | RemoveFailed(path: string)
    | WipeSelectedFailed(cause: Error)
    | WipeAllFailed(cause: Error)
    // restore
    | FlagsNotParsed
    | NoFilesToRestore
    | LocalRetrieveFailed(cause: Error)
    | RestoreRenameFailed(file: string)
    | DeleteJournalFailed(file: string, cause: Error)
    // status and info
    | BinSizeFailed
    | ItemsRetrieveFailed(cause: Error)
    | ItemNameRequired
    | ListFailed(cause: Error)
    | InvalidPosition(position: int)
    | GetFailed(cause: Error)

  datatype Result<+T> = Ok(value: T) | Err(error: Error) {
    predicate IsFailure() {
      Err?
    }

    function PropagateFailure<U>(): Result<U>
      requires Err?
    {
      Err(error)
    }

    function Extract(): T
      requires Ok?
    {
      value
    }
  }

  /** The result of an operation that only succeeds or fails. */
  datatype Outcome = Pass | Fail(error: Error)
}
