/** Cancellation: a token with core's record of why it was signalled, and relabelling a failed call by what they say. */
module Cancel {
  import opened Wrappers

  /** A backend's own error by its number, HY008 and HYT00. */
  datatype Failure = Own(code: int) | OperationCanceled | TimeoutExpired

  /** Who has signalled a backend's token, and core's own flag. */
  datatype Token = Token(byUser: bool, byTimer: bool, timedOut: bool)
  {
    predicate Cancelled() {
      byUser || byTimer
    }

    function Marked(): Token {
      this.(timedOut := true)
    }

    function SignalledByUser(): Token {
      this.(byUser := true)
    }

    function SignalledByTimer(): Token {
      this.(byTimer := true)
    }
  }

  const FRESH := Token(false, false, false)

  /** A backend's cancel token. Whether a signal lands is the backend's affair. */
  class BackendToken {
    var byUser: bool
    var byTimer: bool

    constructor ()
      ensures !byUser && !byTimer
    {
      byUser, byTimer := false, false;
    }

    method Cancel(fromTimer: bool, lands: bool)
      modifies this
      ensures byUser == (old(byUser) || (lands && !fromTimer)) && byTimer == (old(byTimer) || (lands && fromTimer))
    {
      if lands && fromTimer { byTimer := true; }
      if lands && !fromTimer { byUser := true; }
    }

    predicate IsCancelled()
      reads this
    {
      byUser || byTimer
    }
  }

  /** The token of one execution, with the record of whether a core-side deadline is why it was signalled. */
  class CancelState {
    const token: BackendToken
    var timedOut: bool

    /** The token as the protocol sees it. */
    function View(): Token
      reads this, token
    {
      Token(token.byUser, token.byTimer, timedOut)
    }

    constructor (token: BackendToken)
      ensures this.token == token && View() == Token(token.byUser, token.byTimer, false)
      ensures !token.IsCancelled() ==> View() == FRESH
    {
      this.token := token;
      timedOut := false;
    }

    method MarkTimedOut()
      modifies this
      ensures View() == old(View()).Marked()
    {
      timedOut := true;
    }

    /**
     The end of an expired timer: the mark, then the cancel. Between the two the
     token shows the mark and no more, so nobody can see the one without the other.
     */
    method Expire(lands: bool) returns (ghost between: Token)
      modifies this, token
      ensures between == old(View()).Marked()
      ensures View() == if lands then between.SignalledByTimer() else between
    {
      MarkTimedOut();
      between := View();
      token.Cancel(true, lands);
    }

    /** The cancel pass and then the timeout pass over a call's answer; `fired` is what the call's own timer says. */
    method Check<T>(result: Result<T, Failure>, fired: bool) returns (r: Result<T, Failure>)
      ensures result.Ok? ==> r == result
      ensures result.Err? && (fired || View().timedOut) ==> r == Err(TimeoutExpired)
      ensures result.Err? && !fired && !View().timedOut && View().Cancelled() ==> r == Err(OperationCanceled)
      ensures !fired && !View().timedOut && !View().Cancelled() ==> r == result
    {
      r := ReclassifyCancelled(result, token.IsCancelled());
      r := ReclassifyTimedOut(r, fired || timedOut);
    }
  }

  /** A failure becomes HY008 when the token was signalled; a success is left alone. */
  function ReclassifyCancelled<T>(result: Result<T, Failure>, isCancelled: bool): Result<T, Failure> {
    match result
    case Ok(v) => Ok(v)
    case Err(e) => if isCancelled then Err(OperationCanceled) else Err(e)
  }

  /** No token: no backend call has run on the statement, so nothing can have been cancelled. */
  function ReclassifyCancelledOpt<T>(result: Result<T, Failure>, isCancelled: Option<bool>): Result<T, Failure> {
    match isCancelled
    case Some(c) => ReclassifyCancelled(result, c)
    case None => result
  }

  /** The timeout pass, which runs second so that HYT00 wins over HY008. */
  function ReclassifyTimedOut<T>(result: Result<T, Failure>, timedOut: bool): Result<T, Failure> {
    match result
    case Ok(v) => Ok(v)
    case Err(e) => if timedOut then Err(TimeoutExpired) else Err(e)
  }
}
