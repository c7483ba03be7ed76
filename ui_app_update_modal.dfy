// src/ui_app_update_modal.rs: the launcher's own update dialog. Only the
// input handling and the spinner frame choice are modelled; rendering is not.
module UiAppUpdateModal {
  import opened Options
  import opened Input

  datatype AppUpdatePhase = Prompt | Updating | Completed | Failed

  /** The messages the dialog can send. */
  datatype ModalMessage = StartAppUpdate | CloseAppUpdateModal

  const SPINNER_CHARS: seq<string> := ["◐", "◓", "◑", "◒"]

  /** `handle_app_update_navigation`. */
  function HandleAppUpdateNavigation(phase: AppUpdatePhase, action: Action): (r: Option<ModalMessage>)
    ensures (phase == Updating || phase == Completed) ==> r == None
    ensures phase == Prompt ==>
      (r == Some(StartAppUpdate) <==> action == Select) &&
      (r == Some(CloseAppUpdateModal) <==> action == Back || action == ShowHelp)
    ensures phase == Failed ==>
      (r == Some(CloseAppUpdateModal) <==> action == Back || action == ShowHelp || action == Select) &&
      r != Some(StartAppUpdate)
  {
    match phase
    case Prompt =>
      (match action
       case Select => Some(StartAppUpdate)
       case Back | ShowHelp => Some(CloseAppUpdateModal)
       case _ => None)
    case Updating => None
    case Failed =>
      (match action
       case Back | ShowHelp | Select => Some(CloseAppUpdateModal)
       case _ => None)
    case _ => None
  }

  /** Only the prompt can start an update, and only on Select. */
  lemma OnlyPromptStarts(phase: AppUpdatePhase, action: Action)
    ensures HandleAppUpdateNavigation(phase, action) == Some(StartAppUpdate) <==> phase == Prompt && action == Select
  {
  }

  /** The spinner frame for a tick: `spinner_tick % SPINNER_CHARS.len()`. */
  function SpinnerIndex(tick: nat): (r: nat)
    ensures r < |SPINNER_CHARS|
  {
    tick % |SPINNER_CHARS|
  }

  /** Consecutive ticks step through the four frames in order and wrap around. */
  lemma SpinnerCycles(tick: nat)
    ensures SpinnerIndex(tick + 1) == (SpinnerIndex(tick) + 1) % 4
    ensures SpinnerIndex(tick + 4) == SpinnerIndex(tick)
  {
  }
}
