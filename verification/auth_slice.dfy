/** The frontend's session store: the reducer of the `auth` slice. The state
    is a class whose fields the reducer cases assign in place. */
module AuthSlice {
  import opened Wrappers
  import opened Domain

  /** The four values of `status`; the type admits no other. */
  datatype AuthStatus = Idle | Loading | Succeeded | Failed

  /** The two thunks that obtain a session from credentials. */
  datatype CredentialsThunk = Login | Register

  /** What a successful login or registration returns. */
  datatype Session = Session(user: User, token: string)

  /** Every lifecycle action of the slice's thunks, and its two plain
      reducers. The logout thunk's pending and rejected actions are
      dispatched too, but the reducer has no case for them. */
  datatype AuthAction =
    | ClearError
    | SetUser(user: User)
    | Pending(thunk: CredentialsThunk)
    | Fulfilled(thunk: CredentialsThunk, session: Session)
    | Rejected(thunk: CredentialsThunk, message: string)
    | LogoutPending
    | LogoutFulfilled
    | LogoutRejected(message: string)

  class AuthState {
    var token: Option<string>
    var user: Option<User>
    var status: AuthStatus
    var error: Option<string>

    /** The initial state: the token and user read back from local storage
        (passed in), idle, no error. */
    constructor (storedToken: Option<string>, storedUser: Option<User>)
      ensures token == storedToken && user == storedUser
      ensures status == Idle && error == None
      ensures SignedIn()
    {
      token := storedToken;
      user := storedUser;
      status := Idle;
      error := None;
    }

    /** The slice reducer applied to one action. */
    method Dispatch(action: AuthAction)
      modifies this
      ensures action.ClearError? ==>
        && error == None
        && token == old(token) && user == old(user) && status == old(status)
      ensures action.SetUser? ==>
        && user == Some(action.user)
        && token == old(token) && status == old(status) && error == old(error)
      ensures action.Pending? ==>
        && status == Loading && error == None
        && token == old(token) && user == old(user)
      ensures action.Fulfilled? ==>
        && status == Succeeded && error == None
        && token == Some(action.session.token) && user == Some(action.session.user)
      ensures action.Rejected? ==>
        && status == Failed && error == Some(action.message)
        && token == old(token) && user == old(user)
      ensures action.LogoutFulfilled? ==>
        token == None && user == None && status == Idle && error == None
      ensures action.LogoutPending? || action.LogoutRejected? ==> unchanged(this)
      ensures old(SignedIn()) ==> SignedIn()
    {
      match action
      case ClearError =>
        error := None;
      case SetUser(u) =>
        user := Some(u);
      case Pending(_) =>
        status := Loading;
        error := None;
      case Fulfilled(_, session) =>
        status := Succeeded;
        token := Some(session.token);
        user := Some(session.user);
        error := None;
      case Rejected(_, message) =>
        status := Failed;
        error := Some(message);
      case LogoutFulfilled =>
        token := None;
        user := None;
        status := Idle;
        error := None;
      case LogoutPending =>
      case LogoutRejected(_) =>
    }

    /** Whenever `status` is `succeeded`, a token and a user are held. */
    ghost predicate SignedIn()
      reads this
    {
      status == Succeeded ==> token.Some? && user.Some?
    }
  }
}
