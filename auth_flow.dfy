// src/auth_flow.rs: the password prompt of a privileged update. The oneshot
// channel back to the waiting task is a token that is there until it has
// been used; `sent` records, as ghost state, every value sent through it.
module AuthFlow {
  import opened Options

  datatype AuthFlowState =
    | AwaitingPassword(prompt: string)
    | Verifying
    | Success
    | Failed(message: string)

  const CANCELLED := "Authentication cancelled"

  class AuthFlow {
    var state: AuthFlowState
    var message: string
    var password: string
    /** `responder`: the sending half of the oneshot channel, until it is taken. */
    var responder: Option<nat>
    /** What the responder has sent, in order. */
    ghost var sent: seq<Option<string>>

    /** The responder is still there exactly when nothing has been sent, and it sends at most once. */
    ghost predicate Valid()
      reads this
    {
      |sent| <= 1 && (responder.Some? <==> sent == [])
    }

    /** `AuthFlow::new`. */
    constructor (prompt: string, message: string, channel: nat)
      ensures state == AwaitingPassword(prompt) && this.message == message
      ensures password == [] && responder == Some(channel) && sent == []
      ensures Valid()
    {
      state := AwaitingPassword(prompt);
      this.message := message;
      password := [];
      responder := Some(channel);
      sent := [];
    }

    /** `set_password`: the old password is wiped first. */
    method SetPassword(value: string)
      modifies this
      ensures password == value
      ensures state == old(state) && message == old(message) && responder == old(responder) && sent == old(sent)
    {
      ClearPassword();
      password := value;
    }

    /**
     * `submit`: send the password through the responder, if it is still
     * there, and wipe it either way.
     */
    method Submit() returns (r: Option<string>)
      requires Valid()
      modifies this
      ensures Valid()
      ensures password == [] && message == old(message) && responder == None
      ensures old(responder).Some? ==>
        r == Some(old(password)) && state == Verifying && sent == old(sent) + [Some(old(password))]
      ensures old(responder).None? ==> r == None && state == old(state) && sent == old(sent)
    {
      var pw := password;
      var taken := responder;
      responder := None;
      ClearPassword();
      if taken.Some? {
        sent := sent + [Some(pw)];
        state := Verifying;
        return Some(pw);
      }
      return None;
    }

    /** `cancel`: send `None` if the responder is still there, and fail. */
    method Cancel()
      requires Valid()
      modifies this
      ensures Valid()
      ensures password == [] && message == old(message) && responder == None
      ensures state == Failed(CANCELLED)
      ensures old(responder).Some? ==> sent == old(sent) + [None]
      ensures old(responder).None? ==> sent == old(sent)
    {
      ClearPassword();
      if responder.Some? {
        responder := None;
        sent := sent + [None];
      }
      state := Failed(CANCELLED);
    }

    /** `clear_password`: zero and empty the stored password. */
    method ClearPassword()
      modifies this
      ensures password == []
      ensures state == old(state) && message == old(message) && responder == old(responder) && sent == old(sent)
    {
      password := [];
    }

    /** `Drop::drop`. */
    method Drop()
      modifies this
      ensures password == []
      ensures state == old(state) && message == old(message) && responder == old(responder) && sent == old(sent)
    {
      ClearPassword();
    }
  }
}
