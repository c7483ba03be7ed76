// src/system_update_state.rs: the status of a system update as the UI shows
// it, and the progress messages the update stream sends.
module SystemUpdateState {
  import opened Options

  datatype UpdateStatus =
    | Starting
    | SyncingDatabases
    | CheckingUpdates
    | Downloading(downloading: Option<string>)
    | Building(building: string)
    | Installing(current: nat, total: nat, installing: string)
    | Completed(restartRequired: bool)
    | Failed(message: string)
    | NoUpdates
  {
    /** `is_running`. */
    predicate IsRunning()
    {
      match this
      case Starting | SyncingDatabases | CheckingUpdates | Downloading(_) | Building(_) | Installing(_, _, _) => true
      case _ => false
    }

    /** `is_finished`. */
    predicate IsFinished()
    {
      !IsRunning()
    }
  }

  /** The finished states are exactly the three terminal ones, and a status
      is running or finished, never both. */
  lemma FinishedStates(s: UpdateStatus)
    ensures s.IsFinished() <==> s.Completed? || s.Failed? || s.NoUpdates?
    ensures s.IsRunning() != s.IsFinished()
  {
  }

  datatype SystemUpdateProgress =
    | StatusChange(status: UpdateStatus)
    | LogLine(line: string)
    | SpinnerTick

  datatype UpdateState = UpdateState(status: UpdateStatus, spinnerTick: nat, outputLog: seq<string>)

  /** `SystemUpdateState::new`. */
  function NewState(): (r: UpdateState)
    ensures r.status == Starting && r.spinnerTick == 0 && r.outputLog == []
    ensures r.status.IsRunning()
  {
    UpdateState(Starting, 0, [])
  }
}
