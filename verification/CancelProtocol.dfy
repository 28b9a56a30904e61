/**
 The cancellation protocol as interleaved steps. Threads that run statements,
 threads that call SQLCancel and query timers act in any order on tokens that
 are minted one per execution.
 */
module CancelProtocol {
  import opened Wrappers
  import opened Cancel

  /**
   A SQLCancel in flight: the token it cloned, how many tokens had been minted
   when it did, whether it has made its one attempt, and whether that landed.
   */
  datatype Canceller = Canceller(token: Option<nat>, stamp: nat, signalled: bool, landed: bool)

  /** A timer thread records that it fired, then marks the token, then cancels it, which may or may not land. */
  datatype TimerPhase = Waiting | StoodDown | Fired | Marked | Signalled(landed: bool)

  datatype Timer = Timer(token: nat, phase: TimerPhase)
  {
    predicate HasFired() { phase.Fired? || HasMarked() }

    predicate HasMarked() { phase.Marked? || phase.Signalled? }
  }

  /** Entry points that hold no timer, hold one without a deadline, or hold an armed one. */
  datatype Guard = NoTimer | Untimed | Armed(timer: nat)

  type Outcome = Result<(), Failure>

  /** A call in the backend, returned from it, past the cancel pass, past its own timer, and reported. */
  datatype Phase = Running | Returned | Labelled(f: Failure) | TimerAsked(f: Failure) | Reported(o: Outcome)

  /** `own` is what the backend answered, once it has. */
  datatype Call = Call(token: Option<nat>, guard: Guard, own: Option<Outcome>, phase: Phase)

  datatype State = State(tokens: seq<Token>, registry: map<nat, nat>, cancellers: seq<Canceller>, timers: seq<Timer>,
                         calls: seq<Call>)

  const INITIAL := State([], map[], [], [], [])

  datatype Event =
    | Execute(stmt: nat, timed: bool)
    | Consume(stmt: nat, holdsTimer: bool, timed: bool)
    | BeginCancel(stmt: nat)
    | Signal(k: nat, lands: bool)
    | Fire(t: nat)
    | Mark(t: nat)
    | TimerCancel(t: nat, lands: bool)
    | Return(c: nat, own: Result<(), int>)
    | Label(c: nat)
    | AskTimer(c: nat)
    | AskToken(c: nat)
    | Drop(c: nat)

  predicate Enabled(s: State, e: Event) {
    match e
    case Execute(_, _) => true
    case Consume(_, _, _) => true
    case BeginCancel(_) => true
    case Signal(k, _) => k < |s.cancellers| && !s.cancellers[k].signalled
    case Fire(t) => t < |s.timers| && s.timers[t].phase.Waiting?
    case Mark(t) => t < |s.timers| && s.timers[t].phase.Fired? && s.timers[t].token < |s.tokens|
    case TimerCancel(t, _) => t < |s.timers| && s.timers[t].phase.Marked? && s.timers[t].token < |s.tokens|
    case Return(c, _) => c < |s.calls| && s.calls[c].phase.Running?
    case Label(c) => c < |s.calls| && s.calls[c].phase.Returned? && s.calls[c].own.Some?
    case AskTimer(c) => c < |s.calls| && s.calls[c].phase.Labelled?
    case AskToken(c) => c < |s.calls| && s.calls[c].phase.TimerAsked?
    case Drop(c) => c < |s.calls| && s.calls[c].phase.Reported?
  }

  function TokenOf(s: State, stmt: nat): Option<nat> {
    if stmt in s.registry then Some(s.registry[stmt]) else None
  }

  function TokenState(s: State, token: Option<nat>): Token {
    if token.Some? && token.value < |s.tokens| then s.tokens[token.value] else FRESH
  }

  /** Is the timer a call holds known to have fired? */
  predicate OwnTimerFired(s: State, g: Guard) {
    g.Armed? && g.timer < |s.timers| && s.timers[g.timer].HasFired()
  }

  function Begin(s: State, token: Option<nat>, holdsTimer: bool, timed: bool): State {
    var armed := holdsTimer && timed && token.Some?;
    var guard := if !holdsTimer then NoTimer else if armed then Armed(|s.timers|) else Untimed;
    s.(timers := if armed then s.timers + [Timer(token.value, Waiting)] else s.timers,
       calls := s.calls + [Call(token, guard, None, Running)])
  }

  function SetToken(s: State, i: nat, t: Token): State
    requires i < |s.tokens|
  {
    s.(tokens := s.tokens[i := t])
  }

  function SetPhase(s: State, c: nat, p: Phase): State
    requires c < |s.calls|
  {
    s.(calls := s.calls[c := s.calls[c].(phase := p)])
  }

  function SetTimer(s: State, t: nat, p: TimerPhase): State
    requires t < |s.timers|
  {
    s.(timers := s.timers[t := s.timers[t].(phase := p)])
  }

  function OwnOutcome(own: Result<(), int>): Outcome {
    match own case Ok(_) => Ok(()) case Err(n) => Err(Own(n))
  }

  /** The cancel pass: done with a success, and with a failure no timer is held for. */
  function AfterLabel(s: State, call: Call): Phase
    requires call.own.Some?
  {
    var seen := if call.token.Some? then Some(TokenState(s, call.token).Cancelled()) else None;
    var r := ReclassifyCancelledOpt(call.own.value, seen);
    if r.Err? && call.guard != NoTimer then Labelled(r.error) else Reported(r)
  }

  function Apply(s: State, e: Event): State
    requires Enabled(s, e)
  {
    match e
    case Execute(stmt, timed) =>
      var minted := s.(tokens := s.tokens + [FRESH], registry := s.registry[stmt := |s.tokens|]);
      Begin(minted, Some(|s.tokens|), true, timed)
    case Consume(stmt, holdsTimer, timed) => Begin(s, TokenOf(s, stmt), holdsTimer, timed)
    case BeginCancel(stmt) => s.(cancellers := s.cancellers + [Canceller(TokenOf(s, stmt), |s.tokens|, false, false)])
    case Signal(k, lands) =>
      var done := s.(cancellers := s.cancellers[k := s.cancellers[k].(signalled := true, landed := lands)]);
      var token := s.cancellers[k].token;
      if lands && token.Some? && token.value < |s.tokens| then
            SetToken(done, token.value, s.tokens[token.value].SignalledByUser())
      else done
    case Fire(t) => SetTimer(s, t, Fired)
    case Mark(t) => SetTimer(SetToken(s, s.timers[t].token, s.tokens[s.timers[t].token].Marked()), t, Marked)
    case TimerCancel(t, lands) =>
      var done := SetTimer(s, t, Signalled(lands));
      if lands then SetToken(done, s.timers[t].token, s.tokens[s.timers[t].token].SignalledByTimer()) else done
    case Return(c, own) => s.(calls := s.calls[c := s.calls[c].(own := Some(OwnOutcome(own)), phase := Returned)])
    case Label(c) => SetPhase(s, c, AfterLabel(s, s.calls[c]))
    case AskTimer(c) =>
      var f := s.calls[c].phase.f;
      SetPhase(s, c, if OwnTimerFired(s, s.calls[c].guard) then Reported(Err(TimeoutExpired)) else TimerAsked(f))
    case AskToken(c) =>
      SetPhase(s, c, Reported(ReclassifyTimedOut(Err(s.calls[c].phase.f), TokenState(s, s.calls[c].token).timedOut)))
    case Drop(c) =>
      var g := s.calls[c].guard;
      if g.Armed? && g.timer < |s.timers| && s.timers[g.timer].phase.Waiting? then
            SetTimer(s, g.timer, StoodDown) else s
  }

  // ----- what never goes back -----

  /** Nothing is forgotten: tokens, cancels and timers keep what has been done to them. */
  ghost predicate Evolves(s: State, s': State) {
    && |s.tokens| <= |s'.tokens| && |s.cancellers| <= |s'.cancellers| && |s.timers| <= |s'.timers|
          && |s.calls| <= |s'.calls|
    && (forall i :: 0 <= i < |s.tokens| ==>
          (s.tokens[i].byUser ==> s'.tokens[i].byUser) && (s.tokens[i].byTimer ==> s'.tokens[i].byTimer)
          && (s.tokens[i].timedOut ==> s'.tokens[i].timedOut))
    && (forall k :: 0 <= k < |s.cancellers| ==>
          s'.cancellers[k].token == s.cancellers[k].token && s'.cancellers[k].stamp == s.cancellers[k].stamp
          && (s.cancellers[k].signalled ==> s'.cancellers[k] == s.cancellers[k]))
    && (forall t :: 0 <= t < |s.timers| ==>
          s'.timers[t].token == s.timers[t].token && (s.timers[t].HasFired() ==> s'.timers[t].HasFired()))
    && (forall c :: 0 <= c < |s.calls| ==>
        s'.calls[c].token == s.calls[c].token && s'.calls[c].guard == s.calls[c].guard)
  }

  lemma StepEvolves(s: State, e: Event)
    requires Enabled(s, e)
    ensures Evolves(s, Apply(s, e))
  {
    hide AfterLabel;
  }

  // ----- the invariant -----

  /** Some SQLCancel that cloned token `i`, after it was minted, has signalled it. */
  ghost predicate UserSignalled(s: State, i: nat) {
    exists k :: 0 <= k < |s.cancellers| && s.cancellers[k].token == Some(i) && i < s.cancellers[k].stamp
          && s.cancellers[k].landed
  }

  /** Some timer armed on token `i` has marked it. */
  ghost predicate TimerMarked(s: State, i: nat) {
    exists t :: 0 <= t < |s.timers| && s.timers[t].token == i && s.timers[t].HasMarked()
  }

  /** Some timer armed on token `i` has cancelled it. */
  ghost predicate TimerCancelled(s: State, i: nat) {
    exists t :: 0 <= t < |s.timers| && s.timers[t].token == i && s.timers[t].phase == Signalled(true)
  }

  /** Some timer armed on token `i` has fired. */
  ghost predicate TimerFired(s: State, i: nat) {
    exists t :: 0 <= t < |s.timers| && s.timers[t].token == i && s.timers[t].HasFired()
  }

  lemma StaysTrue(s: State, s': State, i: nat)
    requires Evolves(s, s') && LandedIsSignalled(s)
    ensures UserSignalled(s, i) ==> UserSignalled(s', i)
    ensures TimerFired(s, i) ==> TimerFired(s', i)
  {
    if UserSignalled(s, i) {
      var k :| 0 <= k < |s.cancellers| && s.cancellers[k].token == Some(i) && i < s.cancellers[k].stamp
            && s.cancellers[k].landed;
      assert s'.cancellers[k].token == Some(i);
    }
    if TimerFired(s, i) {
      var t :| 0 <= t < |s.timers| && s.timers[t].token == i && s.timers[t].HasFired();
      assert s'.timers[t].token == i;
    }
  }

  ghost predicate LandedIsSignalled(s: State) {
    forall k :: 0 <= k < |s.cancellers| ==> s.cancellers[k].landed ==> s.cancellers[k].signalled
  }

  /** The parts point at each other: every token named has been minted. */
  ghost predicate WellFormed(s: State) {
    && LandedIsSignalled(s)
    && (forall stmt :: stmt in s.registry ==> s.registry[stmt] < |s.tokens|)
    && (forall k :: 0 <= k < |s.cancellers| ==>
          s.cancellers[k].stamp <= |s.tokens| && (s.cancellers[k].token.Some? ==>
                                                  s.cancellers[k].token.value < s.cancellers[k].stamp))
    && (forall t :: 0 <= t < |s.timers| ==> s.timers[t].token < |s.tokens|)
    && (forall c :: 0 <= c < |s.calls| ==> CallWellFormed(s, s.calls[c]))
  }

  ghost predicate CallWellFormed(s: State, call: Call) {
    && (call.token.Some? ==> call.token.value < |s.tokens|)
    && (call.guard.Armed? ==>
          call.guard.timer < |s.timers| && call.token == Some(s.timers[call.guard.timer].token))
  }

  /** A token shows exactly what was done to it: by a SQLCancel, by a timer, by a timer's mark before that. */
  ghost predicate TokensExplained(s: State) {
    forall i :: 0 <= i < |s.tokens| ==> TokenExplained(s, i, s.tokens[i])
  }

  ghost predicate TokenExplained(s: State, i: nat, token: Token) {
    && (token.byUser <==> UserSignalled(s, i))
    && (token.byTimer <==> TimerCancelled(s, i))
    && (token.timedOut <==> TimerMarked(s, i))
  }

  ghost predicate FiredFor(s: State, token: Option<nat>) {
    token.Some? && TimerFired(s, token.value)
  }

  /** What a call's label may be, given what the backend answered. */
  ghost predicate LabelExplained(s: State, call: Call, f: Failure, g: Failure) {
    || f == g
    || (f == OperationCanceled && TokenState(s, call.token).Cancelled())
  }

  /** What a call may have reported. */
  ghost predicate ReportExplained(s: State, call: Call, o: Outcome) {
    match call.own
    case None => false
    case Some(Ok(_)) => o == call.own.value
    case Some(Err(g)) =>
      o.Err? && (
        || o.error == g
        || (o.error == OperationCanceled && if call.guard == NoTimer then
            TokenState(s, call.token).Cancelled() else TokenState(s, call.token).byUser)
        || (o.error == TimeoutExpired && call.guard != NoTimer && FiredFor(s, call.token)))
  }

  ghost predicate CallExplained(s: State, call: Call) {
    && (call.own.Some? && call.own.value.Err? ==> call.own.value.error.Own?)
    && match call.phase
       case Running => call.own == None
       case Returned => call.own.Some?
       case Labelled(f) => call.guard != NoTimer && call.own.Some? && call.own.value.Err?
             && LabelExplained(s, call, f, call.own.value.error)
       case TimerAsked(f) => call.guard != NoTimer && call.own.Some? && call.own.value.Err?
             && LabelExplained(s, call, f, call.own.value.error)
       case Reported(o) => ReportExplained(s, call, o)
  }

  ghost predicate CallsExplained(s: State) {
    forall c :: 0 <= c < |s.calls| ==> CallExplained(s, s.calls[c])
  }

  ghost predicate Inv(s: State) {
    WellFormed(s) && TokensExplained(s) && CallsExplained(s)
  }

  // ----- every step keeps it -----

  lemma StepWellFormed(s: State, e: Event)
    requires WellFormed(s) && Enabled(s, e)
    ensures WellFormed(Apply(s, e))
  {
    hide AfterLabel, CallWellFormed;
    var s' := Apply(s, e);
    StepEvolves(s, e);
    forall c | 0 <= c < |s'.calls| ensures CallWellFormed(s', s'.calls[c]) {
      if c < |s.calls| { CallStaysWellFormed(s, s', s.calls[c], s'.calls[c]); } else { NewCallIsWellFormed(s, e, c); }
    }
  }

  lemma CallStaysWellFormed(s: State, s': State, call: Call, call': Call)
    requires CallWellFormed(s, call) && Evolves(s, s') && call'.token == call.token && call'.guard == call.guard
    ensures CallWellFormed(s', call')
  {
  }

  lemma NewCallIsWellFormed(s: State, e: Event, c: nat)
    requires WellFormed(s) && Enabled(s, e) && |s.calls| <= c < |Apply(s, e).calls|
    ensures CallWellFormed(Apply(s, e), Apply(s, e).calls[c])
  {
    hide AfterLabel;
  }

  lemma CallStays(s: State, s': State, call: Call)
    requires Evolves(s, s') && LandedIsSignalled(s) && CallExplained(s, call) && CallWellFormed(s, call)
    ensures CallExplained(s', call)
  {
    hide UserSignalled, TimerFired;
    if call.token.Some? { StaysTrue(s, s', call.token.value); }
  }

  // What a step adds to the signals on a token already minted.

  lemma UserSignals(s: State, e: Event, i: nat)
    requires WellFormed(s) && Enabled(s, e)
    ensures UserSignalled(Apply(s, e), i) <==>
            UserSignalled(s, i) || (e.Signal? && e.lands && s.cancellers[e.k].token == Some(i))
  {
    hide AfterLabel;
    var s' := Apply(s, e);
    StepEvolves(s, e);
    StaysTrue(s, s', i);
    if e.Signal? && e.lands && s.cancellers[e.k].token == Some(i) { SignalExplains(s', e.k, i); }
    if UserSignalled(s', i) {
      var k :| 0 <= k < |s'.cancellers| && s'.cancellers[k].token == Some(i) && i < s'.cancellers[k].stamp
            && s'.cancellers[k].landed;
      assert k < |s.cancellers|;
    }
  }

  lemma TimerMarks(s: State, e: Event, i: nat)
    requires Enabled(s, e)
    ensures TimerMarked(Apply(s, e), i) <==> TimerMarked(s, i) || (e.Mark? && s.timers[e.t].token == i)
  {
    hide AfterLabel;
    var s' := Apply(s, e);
    if TimerMarked(s, i) {
      var t :| 0 <= t < |s.timers| && s.timers[t].token == i && s.timers[t].HasMarked();
      assert s'.timers[t].token == i && s'.timers[t].HasMarked();
    }
    if e.Mark? { assert s'.timers[e.t].HasMarked(); }
    if TimerMarked(s', i) {
      var t :| 0 <= t < |s'.timers| && s'.timers[t].token == i && s'.timers[t].HasMarked();
      assert t < |s.timers|;
    }
  }

  lemma TimerCancels(s: State, e: Event, i: nat)
    requires Enabled(s, e)
    ensures TimerCancelled(Apply(s, e), i) <==>
            TimerCancelled(s, i) || (e.TimerCancel? && e.lands && s.timers[e.t].token == i)
  {
    hide AfterLabel;
    var s' := Apply(s, e);
    if TimerCancelled(s, i) {
      var t :| 0 <= t < |s.timers| && s.timers[t].token == i && s.timers[t].phase == Signalled(true);
      assert s'.timers[t].token == i && s'.timers[t].phase == Signalled(true);
    }
    if e.TimerCancel? && e.lands { assert s'.timers[e.t].phase == Signalled(true); }
    if TimerCancelled(s', i) {
      var t :| 0 <= t < |s'.timers| && s'.timers[t].token == i && s'.timers[t].phase == Signalled(true);
      assert t < |s.timers|;
    }
  }

  /** Nothing has been done to a token not yet minted. */
  lemma UnmintedIsFresh(s: State, i: nat)
    requires WellFormed(s) && i >= |s.tokens|
    ensures !UserSignalled(s, i) && !TimerMarked(s, i) && !TimerCancelled(s, i)
  {
  }

  /** What a step makes of a token already minted. */
  lemma TokenAfter(s: State, e: Event, i: nat)
    requires WellFormed(s) && Enabled(s, e) && i < |s.tokens|
    ensures |s.tokens| <= |Apply(s, e).tokens|
    ensures var t, t' := s.tokens[i], Apply(s, e).tokens[i];
      && t'.byUser == (t.byUser || (e.Signal? && e.lands && s.cancellers[e.k].token == Some(i)))
      && t'.byTimer == (t.byTimer || (e.TimerCancel? && e.lands && s.timers[e.t].token == i))
      && t'.timedOut == (t.timedOut || (e.Mark? && s.timers[e.t].token == i))
  {
    hide AfterLabel;
  }

  /** A step changes at most the token it acts on, and adds at most a fresh one. */
  lemma TokenChanges(s: State, e: Event, i: nat)
    requires WellFormed(s) && TokensExplained(s) && Enabled(s, e) && i < |Apply(s, e).tokens|
    ensures TokenExplained(Apply(s, e), i, Apply(s, e).tokens[i])
  {
    hide AfterLabel, UserSignalled, TimerMarked, TimerCancelled;
    UserSignals(s, e, i);
    TimerMarks(s, e, i);
    TimerCancels(s, e, i);
    if i < |s.tokens| {
      assert TokenExplained(s, i, s.tokens[i]);
      hide Apply, WellFormed;
      TokenAfter(s, e, i);
    } else {
      UnmintedIsFresh(s, i);
    }
  }

  lemma SignalExplains(s: State, k: nat, i: nat)
    requires k < |s.cancellers| && s.cancellers[k].token == Some(i) && i < s.cancellers[k].stamp
    requires s.cancellers[k].landed
    ensures UserSignalled(s, i)
  {
  }

  lemma FiringExplains(s: State, t: nat)
    requires t < |s.timers| && s.timers[t].HasFired()
    ensures TimerFired(s, s.timers[t].token)
  {
  }

  /** A timer cancels only what it has marked, and marks only after it fired. */
  lemma CancelledIsMarked(s: State, i: nat)
    ensures TimerCancelled(s, i) ==> TimerMarked(s, i)
    ensures TimerMarked(s, i) ==> TimerFired(s, i)
  {
    if TimerMarked(s, i) {
      var t :| 0 <= t < |s.timers| && s.timers[t].token == i && s.timers[t].HasMarked();
      FiringExplains(s, t);
    }
  }

  lemma StepTokens(s: State, e: Event)
    requires WellFormed(s) && TokensExplained(s) && Enabled(s, e)
    ensures TokensExplained(Apply(s, e))
  {
    hide AfterLabel, UserSignalled, TokenExplained, WellFormed;
    var s' := Apply(s, e);
    forall i | 0 <= i < |s'.tokens| ensures TokenExplained(s', i, s'.tokens[i]) { TokenChanges(s, e, i); }
  }

  /** The cancel pass gives a call a label its token explains. */
  lemma LabelIsExplained(s: State, call: Call)
    requires CallWellFormed(s, call) && CallExplained(s, call) && call.phase.Returned?
    ensures CallExplained(s, call.(phase := AfterLabel(s, call)))
  {
  }

  lemma AskTimerIsExplained(s: State, call: Call)
    requires CallWellFormed(s, call) && CallExplained(s, call) && call.phase.Labelled?
    ensures CallExplained(s, call.(phase :=
              if OwnTimerFired(s, call.guard) then Reported(Err(TimeoutExpired)) else TimerAsked(call.phase.f)))
  {
    hide TimerFired;
    if OwnTimerFired(s, call.guard) { FiringExplains(s, call.guard.timer); }
  }

  /** A label of HY008 that survives the flag was SQLCancel's doing: the timer marks before it cancels. */
  lemma AskTokenIsExplained(s: State, call: Call)
    requires WellFormed(s) && TokensExplained(s)
    requires CallWellFormed(s, call) && CallExplained(s, call) && call.phase.TimerAsked?
    ensures CallExplained(s,
                          call.(phase := Reported(ReclassifyTimedOut(Err(call.phase.f),
                                                                     TokenState(s, call.token).timedOut))))
  {
    hide UserSignalled, TimerFired, TimerMarked, TimerCancelled;
    if call.token.Some? {
      assert TokenExplained(s, call.token.value, s.tokens[call.token.value]);
      CancelledIsMarked(s, call.token.value);
    }
  }

  lemma StepCalls(s: State, e: Event)
    requires Inv(s) && Enabled(s, e)
    ensures CallsExplained(Apply(s, e))
  {
    var s' := Apply(s, e);
    StepEvolves(s, e);
    forall c | 0 <= c < |s'.calls| ensures CallExplained(s', s'.calls[c]) { CallChanges(s, e, c); }
  }

  lemma CallChanges(s: State, e: Event, c: nat)
    requires Inv(s) && Enabled(s, e) && c < |Apply(s, e).calls|
    ensures CallExplained(Apply(s, e), Apply(s, e).calls[c])
  {
    hide AfterLabel, UserSignalled, TimerFired, LabelExplained, ReportExplained, TokensExplained, Evolves, TokenState,
         ReclassifyTimedOut, OwnTimerFired;
    var s' := Apply(s, e);
    StepEvolves(s, e);
    if c < |s.calls| {
      var call := s.calls[c];
      CallStays(s, s', call);
      match e {
        case Label(k) => if k == c { LabelIsExplained(s, call); SameWorld(s, s', s'.calls[c]); }
        case AskTimer(k) => if k == c { AskTimerIsExplained(s, call); SameWorld(s, s', s'.calls[c]); }
        case AskToken(k) => if k == c { AskTokenIsExplained(s, call); SameWorld(s, s', s'.calls[c]); }
        case _ =>
      }
    }
  }

  /** What a call may say depends on the tokens, cancels and timers only. */
  lemma SameWorld(s: State, s': State, call: Call)
    requires s'.tokens == s.tokens && s'.cancellers == s.cancellers && s'.timers == s.timers && CallExplained(s, call)
    ensures CallExplained(s', call)
  {
  }

  lemma StepKeepsInv(s: State, e: Event)
    requires Inv(s) && Enabled(s, e)
    ensures Inv(Apply(s, e))
  {
    hide WellFormed, TokensExplained, CallsExplained, Apply;
    StepWellFormed(s, e);
    StepTokens(s, e);
    StepCalls(s, e);
  }

  // ----- over every run -----

  /** A run from the start: each event was possible when it happened. */
  ghost predicate Runs(events: seq<Event>, s: State)
    decreases |events|
  {
    if events == [] then s == INITIAL
    else
      var init, e := events[..|events| - 1], events[|events| - 1];
      exists before :: Runs(init, before) && Enabled(before, e) && Apply(before, e) == s
  }

  lemma {:induction false} RunsKeepInv(events: seq<Event>, s: State)
    requires Runs(events, s)
    ensures Inv(s)
    decreases |events|
  {
    if events != [] {
      hide Inv, Apply;
      var init, e := events[..|events| - 1], events[|events| - 1];
      var before :| Runs(init, before) && Enabled(before, e) && Apply(before, e) == s;
      RunsKeepInv(init, before);
      StepKeepsInv(before, e);
    }
  }

  ghost predicate HasReported(s: State, c: nat, o: Outcome) {
    c < |s.calls| && s.calls[c].phase == Reported(o)
  }

  /** In every run a call is reported a success exactly when its backend answered one, whatever was cancelled. */
  lemma SuccessIsNeverRelabelled(events: seq<Event>, s: State, c: nat, o: Outcome)
    requires Runs(events, s) && HasReported(s, c, o)
    ensures s.calls[c].own.Some? && (s.calls[c].own.value.Ok? <==> o.Ok?)
    ensures o.Ok? <==> Return(c, Ok(())) in events
  {
    hide Runs, WellFormed, TokensExplained, LabelExplained;
    RunsKeepInv(events, s);
    assert CallExplained(s, s.calls[c]);
    AnswerIsTheBackends(events, s, c, Ok(()));
    OneSuccess(s.calls[c].own.value);
  }

  lemma OneSuccess(o: Outcome)
    ensures o.Ok? <==> o == Ok(())
  {
    if o.Ok? { assert o.value == (); }
  }

  /**
   In every run, HY008 on a call means its own execution's token is cancelled; and
   where a timer is held, that a SQLCancel did it. A SQLCancel that signalled a
   token had cloned this very token after it was minted, so a signal on an earlier
   clone never counts.
   */
  lemma CanceledMeansOwnToken(events: seq<Event>, s: State, c: nat)
    requires Runs(events, s) && HasReported(s, c, Err(OperationCanceled))
    ensures s.calls[c].token.Some? && s.calls[c].token.value < |s.tokens|
    ensures var i := s.calls[c].token.value;
      && s.tokens[i].Cancelled() && (s.calls[c].guard != NoTimer ==> s.tokens[i].byUser)
      && (s.tokens[i].byUser ==> UserSignalled(s, i)) && (s.tokens[i].byTimer ==> TimerFired(s, i))
  {
    hide Runs, UserSignalled, TimerFired, TimerMarked, TimerCancelled;
    RunsKeepInv(events, s);
    assert CallExplained(s, s.calls[c]) && CallWellFormed(s, s.calls[c]);
    assert TokenState(s, s.calls[c].token).Cancelled();
    var i := s.calls[c].token.value;
    assert TokenExplained(s, i, s.tokens[i]);
    CancelledIsMarked(s, i);
  }

  /**
   In every run, when no SQLCancel has signalled a call's token, whatever was
   attempted, an entry point that holds a timer never says HY008.
   */
  lemma TimerAloneIsNeverCanceled(events: seq<Event>, s: State, c: nat, o: Outcome)
    requires Runs(events, s) && HasReported(s, c, o) && s.calls[c].guard != NoTimer
    requires !TokenState(s, s.calls[c].token).byUser
    ensures o != Err(OperationCanceled)
  {
    hide Runs, UserSignalled, TimerFired, Inv;
    if o == Err(OperationCanceled) { CanceledMeansOwnToken(events, s, c); }
  }

  /**
   In every run, HYT00 is said only where a timer is held, and only after a timer
   armed on this execution's token fired.
   */
  lemma TimeoutMeansOwnTimer(events: seq<Event>, s: State, c: nat)
    requires Runs(events, s) && HasReported(s, c, Err(TimeoutExpired))
    ensures s.calls[c].guard != NoTimer && s.calls[c].token.Some? && TimerFired(s, s.calls[c].token.value)
  {
    hide Runs, UserSignalled, TimerFired, WellFormed, TokensExplained;
    RunsKeepInv(events, s);
    assert CallExplained(s, s.calls[c]);
  }

  /**
   In every run a token shows what was done to it and nothing else: a SQLCancel
   that landed, a timer's cancel that landed, and the mark a timer leaves first.
   A signal that failed to land shows nothing.
   */
  lemma SignalsAreSeen(events: seq<Event>, s: State, i: nat)
    requires Runs(events, s) && i < |s.tokens|
    ensures s.tokens[i].byUser <==> UserSignalled(s, i)
    ensures s.tokens[i].byTimer <==> TimerCancelled(s, i)
    ensures s.tokens[i].timedOut <==> TimerMarked(s, i)
  {
    hide Runs, UserSignalled, TimerMarked, TimerCancelled, WellFormed, CallsExplained;
    RunsKeepInv(events, s);
    assert TokenExplained(s, i, s.tokens[i]);
  }

  /** So whoever sees a token cancelled sees that a SQLCancel signalled it or that it has timed out. */
  lemma CauseIsVisible(events: seq<Event>, s: State, i: nat)
    requires Runs(events, s) && i < |s.tokens| && s.tokens[i].Cancelled()
    ensures s.tokens[i].byUser || s.tokens[i].timedOut
  {
    hide Runs, UserSignalled, TimerMarked, TimerCancelled;
    SignalsAreSeen(events, s, i);
    CancelledIsMarked(s, i);
  }

  /** In every run, a SQLCancel begun before an execution cannot touch that execution's token. */
  lemma EarlierCancelMisses(events: seq<Event>, s: State, k: nat, lands: bool, i: nat)
    requires Runs(events, s) && Enabled(s, Signal(k, lands)) && s.cancellers[k].stamp <= i < |s.tokens|
    ensures Apply(s, Signal(k, lands)).tokens[i] == s.tokens[i]
  {
    hide Runs, TokensExplained, CallsExplained;
    RunsKeepInv(events, s);
  }

  // ----- nobody is ever stuck -----

  /** The next thing a call's own thread does. */
  function NextOf(c: nat, phase: Phase): Event {
    match phase
    case Running => Return(c, Ok(()))
    case Returned => Label(c)
    case Labelled(_) => AskTimer(c)
    case TimerAsked(_) => AskToken(c)
    case Reported(_) => Drop(c)
  }

  /** In every run, every thread can take its next step, whatever the others have done. */
  lemma EveryThreadCanProceed(events: seq<Event>, s: State)
    requires Runs(events, s)
    ensures forall c :: 0 <= c < |s.calls| ==> Enabled(s, NextOf(c, s.calls[c].phase))
    ensures forall k, lands :: 0 <= k < |s.cancellers| && !s.cancellers[k].signalled ==> Enabled(s, Signal(k, lands))
    ensures forall t :: 0 <= t < |s.timers| && s.timers[t].phase.Waiting? ==> Enabled(s, Fire(t))
    ensures forall t :: 0 <= t < |s.timers| && s.timers[t].phase.Fired? ==> Enabled(s, Mark(t))
    ensures forall t, lands :: 0 <= t < |s.timers| && s.timers[t].phase.Marked? ==> Enabled(s, TimerCancel(t, lands))
  {
    hide Runs, TokensExplained, LabelExplained, ReportExplained;
    RunsKeepInv(events, s);
    forall c | 0 <= c < |s.calls| ensures Enabled(s, NextOf(c, s.calls[c].phase)) {
      assert CallExplained(s, s.calls[c]);
    }
  }

  // ----- what an examined failure ends as -----

  /** `rest` can happen from `s` on, and leads to `last`. */
  ghost predicate Continues(s: State, rest: seq<Event>, last: State)
    decreases |rest|
  {
    if rest == [] then s == last else Enabled(s, rest[0]) && Continues(Apply(s, rest[0]), rest[1..], last)
  }

  /** What has been settled of a call's failure: it is labelled `f`, until a timeout takes its place. */
  ghost predicate Settled(s: State, c: nat, f: Failure) {
    c < |s.calls| && match s.calls[c].phase
                     case Labelled(g) => g == f
                     case TimerAsked(g) => g == f
                     case Reported(o) => o == Err(f) || o == Err(TimeoutExpired)
                     case _ => false
  }

  lemma StaysSettled(s: State, e: Event, c: nat, f: Failure)
    requires Enabled(s, e) && Settled(s, c, f)
    ensures Settled(Apply(s, e), c, f)
  {
    hide AfterLabel, TokenState, OwnTimerFired;
  }

  lemma {:induction false} SettledToTheEnd(s: State, rest: seq<Event>, last: State, c: nat, f: Failure)
    requires Continues(s, rest, last) && Settled(s, c, f)
    ensures Settled(last, c, f)
    decreases |rest|
  {
    hide Settled, Apply;
    if rest != [] {
      StaysSettled(s, rest[0], c, f);
      SettledToTheEnd(Apply(s, rest[0]), rest[1..], last, c, f);
    }
  }

  /**
   However a run goes on after a call's failure is examined: if its token was
   cancelled by then it is reported as HY008 or HYT00, never as its own error; if
   not, as its own error or HYT00, never as HY008, whatever is cancelled later.
   */
  lemma ExaminationDecides(s: State, c: nat, code: int, rest: seq<Event>, last: State, o: Outcome)
    requires Enabled(s, Label(c)) && s.calls[c].own == Some(Err(Own(code)))
    requires Continues(Apply(s, Label(c)), rest, last) && HasReported(last, c, o)
    ensures var cancelled := s.calls[c].token.Some? && TokenState(s, s.calls[c].token).Cancelled();
      o == Err(TimeoutExpired) || o == Err(if cancelled then OperationCanceled else Own(code))
  {
    hide Continues, TokenState;
    var cancelled := s.calls[c].token.Some? && TokenState(s, s.calls[c].token).Cancelled();
    var f := if cancelled then OperationCanceled else Own(code);
    assert Settled(Apply(s, Label(c)), c, f);
    SettledToTheEnd(Apply(s, Label(c)), rest, last, c, f);
  }

  /**
   A cancel that lands is not lost. If some SQLCancel, or the cancel of some timer,
   has landed on a call's token when the call's failure is examined, then in every
   continuation the call is reported as HY008 or HYT00.
   */
  lemma LandedCancelIsReported(events: seq<Event>, s: State, c: nat, code: int, i: nat, rest: seq<Event>, last: State,
                               o: Outcome)
    requires Runs(events, s) && Enabled(s, Label(c)) && s.calls[c].own == Some(Err(Own(code)))
    requires s.calls[c].token == Some(i) && (UserSignalled(s, i) || TimerCancelled(s, i))
    requires Continues(Apply(s, Label(c)), rest, last) && HasReported(last, c, o)
    ensures o == Err(OperationCanceled) || o == Err(TimeoutExpired)
  {
    hide Runs, Continues, UserSignalled, TimerCancelled, TimerMarked, Apply, WellFormed, CallsExplained;
    RunsKeepInv(events, s);
    TokenIsMinted(s, c);
    assert TokenExplained(s, i, s.tokens[i]);
    ExaminationDecides(s, c, code, rest, last, o);
  }

  lemma TokenIsMinted(s: State, c: nat)
    requires WellFormed(s) && c < |s.calls|
    ensures s.calls[c].token.Some? ==> s.calls[c].token.value < |s.tokens|
  {
    assert CallWellFormed(s, s.calls[c]);
  }

  // ----- a timeout -----

  /** A failure that can only end as HYT00: its own timer has fired, or its token is marked. */
  ghost predicate TimesOut(s: State, c: nat) {
    c < |s.calls| && match s.calls[c].phase
                     case Labelled(_) => OwnTimerFired(s, s.calls[c].guard) || TokenState(s, s.calls[c].token).timedOut
                     case TimerAsked(_) => TokenState(s, s.calls[c].token).timedOut
                     case Reported(o) => o == Err(TimeoutExpired)
                     case _ => false
  }

  lemma StaysTimedOut(s: State, e: Event, c: nat)
    requires Enabled(s, e) && TimesOut(s, c)
    ensures TimesOut(Apply(s, e), c)
  {
    hide AfterLabel;
    StepEvolves(s, e);
  }

  lemma {:induction false} TimesOutToTheEnd(s: State, rest: seq<Event>, last: State, c: nat)
    requires Continues(s, rest, last) && TimesOut(s, c)
    ensures TimesOut(last, c)
    decreases |rest|
  {
    hide TimesOut, Apply;
    if rest != [] {
      StaysTimedOut(s, rest[0], c);
      TimesOutToTheEnd(Apply(s, rest[0]), rest[1..], last, c);
    }
  }

  /**
   A timeout is not lost either. Where a timer is held, a failure examined after
   the call's own timer fired, or after any timer marked its token, is reported as
   HYT00 in every continuation.
   */
  lemma TimeoutIsReported(s: State, c: nat, code: int, rest: seq<Event>, last: State, o: Outcome)
    requires Enabled(s, Label(c)) && s.calls[c].own == Some(Err(Own(code))) && s.calls[c].guard != NoTimer
    requires OwnTimerFired(s, s.calls[c].guard) || TokenState(s, s.calls[c].token).timedOut
    requires Continues(Apply(s, Label(c)), rest, last) && HasReported(last, c, o)
    ensures o == Err(TimeoutExpired)
  {
    hide Continues;
    assert TimesOut(Apply(s, Label(c)), c);
    TimesOutToTheEnd(Apply(s, Label(c)), rest, last, c);
  }

  ghost predicate StoodDownFor(s: State, t: nat) {
    t < |s.timers| && s.timers[t].phase == StoodDown
  }

  lemma {:induction false} StaysDown(s: State, rest: seq<Event>, last: State, t: nat)
    requires Continues(s, rest, last) && StoodDownFor(s, t)
    ensures StoodDownFor(last, t)
    decreases |rest|
  {
    if rest != [] {
      StaysDown(Apply(s, rest[0]), rest[1..], last, t);
    }
  }

  /** A timer still waiting when its call lets go of it never fires, so it cancels no later execution. */
  lemma DroppedTimerNeverFires(s: State, c: nat, rest: seq<Event>, last: State)
    requires Enabled(s, Drop(c)) && s.calls[c].guard.Armed? && s.calls[c].guard.timer < |s.timers|
    requires s.timers[s.calls[c].guard.timer].phase.Waiting? && Continues(Apply(s, Drop(c)), rest, last)
    ensures s.calls[c].guard.timer < |last.timers| && !last.timers[s.calls[c].guard.timer].HasFired()
  {
    StaysDown(Apply(s, Drop(c)), rest, last, s.calls[c].guard.timer);
  }

  // ----- what the events of a run say -----

  /** The executions begun, each of which minted a token. */
  function Minted(events: seq<Event>): nat {
    if events == [] then 0
    else Minted(events[..|events| - 1]) + if events[|events| - 1].Execute? then 1 else 0
  }

  /** The token of the last execution on a statement. */
  function LastToken(events: seq<Event>, stmt: nat): Option<nat> {
    if events == [] then None
    else
      var init, e := events[..|events| - 1], events[|events| - 1];
      if e.Execute? && e.stmt == stmt then Some(Minted(init)) else LastToken(init, stmt)
  }

  lemma LastStep(events: seq<Event>, s: State) returns (init: seq<Event>, e: Event, before: State)
    requires Runs(events, s) && events != []
    ensures events == init + [e] && init == events[..|events| - 1] && e == events[|events| - 1]
    ensures Runs(init, before) && Enabled(before, e) && Apply(before, e) == s
  {
    hide Apply, Enabled;
    init, e := events[..|events| - 1], events[|events| - 1];
    before :| Runs(init, before) && Enabled(before, e) && Apply(before, e) == s;
  }

  lemma RegistryStep(s: State, e: Event, stmt: nat)
    requires Enabled(s, e)
    ensures |Apply(s, e).tokens| == |s.tokens| + if e.Execute? then 1 else 0
    ensures TokenOf(Apply(s, e), stmt) == if e.Execute? && e.stmt == stmt then Some(|s.tokens|) else TokenOf(s, stmt)
  {
    hide AfterLabel, TokenState, OwnTimerFired;
  }

  lemma {:induction false} RegistryIsLatest(events: seq<Event>, s: State, stmt: nat)
    requires Runs(events, s)
    ensures |s.tokens| == Minted(events) && TokenOf(s, stmt) == LastToken(events, stmt)
    decreases |events|
  {
    hide Apply, Enabled, TokenOf;
    if events == [] {
      NothingBegun(s, stmt);
    } else {
      var init, e, before := LastStep(events, s);
      hide Runs;
      RegistryIsLatest(init, before, stmt);
      RegistryStep(before, e, stmt);
    }
  }

  lemma NothingBegun(s: State, stmt: nat)
    requires Runs([], s)
    ensures s.tokens == [] && TokenOf(s, stmt) == None && s.calls == []
  {
  }

  /** A SQLCancel holds the token of the last execution begun on its statement before it, and no other. */
  lemma CancelHoldsLastToken(events: seq<Event>, s: State, stmt: nat)
    requires Runs(events, s)
    ensures var begun := Canceller(LastToken(events, stmt), Minted(events), false, false);
      Apply(s, BeginCancel(stmt)).cancellers == s.cancellers + [begun]
  {
    hide Runs;
    RegistryIsLatest(events, s, stmt);
  }

  /** An execution runs under a new token that nothing has signalled; a later read of its cursor under the same. */
  lemma CallsHoldTheirToken(events: seq<Event>, s: State, stmt: nat, holdsTimer: bool, timed: bool)
    requires Runs(events, s)
    ensures var s' := Apply(s, Execute(stmt, timed));
      && s'.tokens == s.tokens + [FRESH] && |s'.calls| == |s.calls| + 1
      && s'.calls[|s.calls|].token == Some(Minted(events)) && s'.calls[|s.calls|].guard != NoTimer
      && LastToken(events + [Execute(stmt, timed)], stmt) == Some(Minted(events))
    ensures var s' := Apply(s, Consume(stmt, holdsTimer, timed));
      && s'.tokens == s.tokens && |s'.calls| == |s.calls| + 1
      && s'.calls[|s.calls|].token == LastToken(events, stmt)
      && (s'.calls[|s.calls|].guard == NoTimer <==> !holdsTimer)
  {
    hide Runs, Minted;
    RegistryIsLatest(events, s, stmt);
    assert (events + [Execute(stmt, timed)])[..|events|] == events;
  }

  /** A call's answer, as a backend's answer. */
  ghost predicate Answered(s: State, c: nat, answer: Result<(), int>) {
    c < |s.calls| && s.calls[c].own == Some(match answer case Ok(_) => Ok(()) case Err(n) => Err(Own(n)))
  }

  /** A call runs until it is answered. */
  ghost predicate RunsUntilAnswered(s: State) {
    forall c :: 0 <= c < |s.calls| ==> (s.calls[c].phase.Running? <==> s.calls[c].own == None)
  }

  lemma AnswerStep(s: State, e: Event, c: nat, answer: Result<(), int>)
    requires Enabled(s, e) && RunsUntilAnswered(s)
    ensures RunsUntilAnswered(Apply(s, e))
    ensures Answered(Apply(s, e), c, answer) <==> Answered(s, c, answer) || e == Return(c, answer)
  {
    hide TokenState, OwnTimerFired, TokenOf;
    if e.Return? && e.own.Ok? && answer.Ok? { assert e.own.value == () && answer.value == (); }
  }

  /** In every run, what a call says its backend answered is what the backend did answer. */
  lemma {:induction false} AnswerIsTheBackends(events: seq<Event>, s: State, c: nat, answer: Result<(), int>)
    requires Runs(events, s)
    ensures Answered(s, c, answer) <==> Return(c, answer) in events
    ensures RunsUntilAnswered(s)
    decreases |events|
  {
    hide Apply, Enabled, Answered;
    if events == [] {
      NothingAnswered(s, c, answer);
    } else {
      var init, e, before := LastStep(events, s);
      hide Runs, RunsUntilAnswered;
      AnswerIsTheBackends(init, before, c, answer);
      AnswerStep(before, e, c, answer);
    }
  }

  lemma NothingAnswered(s: State, c: nat, answer: Result<(), int>)
    requires Runs([], s)
    ensures !Answered(s, c, answer) && RunsUntilAnswered(s)
  {
  }

  lemma Extends(events: seq<Event>, s: State, e: Event)
    requires Runs(events, s) && Enabled(s, e)
    ensures Runs(events + [e], Apply(s, e))
  {
    hide Apply, Enabled;
    assert (events + [e])[..|events|] == events;
  }

  ghost predicate Reached(s: State) {
    exists events :: Runs(events, s)
  }

  lemma Then(s: State, e: Event, next: State)
    requires Reached(s) && Enabled(s, e) && Apply(s, e) == next
    ensures Reached(next)
  {
    hide Apply, Enabled;
    var events :| Runs(events, s);
    Extends(events, s, e);
  }

  /** An execution that succeeds although its deadline expires: the token is marked, then cancelled. */
  function Expired(timer: TimerPhase, token: Token, phase: Phase): State {
    State([token], map[0 := 0], [], [Timer(0, timer)], [Call(Some(0), Armed(0), Some(Ok(())), phase)])
  }

  /** A read of its cursor that fails afterwards. */
  function Reading(own: Option<Outcome>, phase: Phase): State {
    var s := Expired(Signalled(true), Token(false, true, true), Reported(Ok(())));
    s.(calls := s.calls + [Call(Some(0), NoTimer, own, phase)])
  }

  lemma ExpiryReached()
    ensures Reached(Expired(Marked, Token(false, false, true), Returned))
  {
    hide Reached;
    assert Reached(INITIAL) by { StartReached(); }
    var running := State([FRESH], map[0 := 0], [], [Timer(0, Waiting)], [Call(Some(0), Armed(0), None, Running)]);
    Then(INITIAL, Execute(0, true), running);
    Then(running, Return(0, Ok(())), Expired(Waiting, FRESH, Returned));
    Then(Expired(Waiting, FRESH, Returned), Fire(0), Expired(Fired, FRESH, Returned));
    Then(Expired(Fired, FRESH, Returned), Mark(0), Expired(Marked, Token(false, false, true), Returned));
  }

  lemma StartReached()
    ensures Reached(INITIAL)
  {
    assert Runs([], INITIAL);
  }

  lemma ReadingReached()
    requires Reached(Expired(Marked, Token(false, false, true), Returned))
    ensures Reached(Reading(None, Running))
  {
    hide Reached;
    var marked, cancelled := Token(false, false, true), Token(false, true, true);
    Then(Expired(Marked, marked, Returned), TimerCancel(0, true), Expired(Signalled(true), cancelled, Returned));
    Then(Expired(Signalled(true), cancelled, Returned), Label(0),
         Expired(Signalled(true), cancelled, Reported(Ok(()))));
    Then(Expired(Signalled(true), cancelled, Reported(Ok(()))), Consume(0, false, false), Reading(None, Running));
  }

  /** The exception is real: SQLGetData holds no timer, and says HY008 of a token only a timer signalled. */
  lemma TimerlessCallSaysCanceled() returns (s: State)
    ensures Reached(s) && HasReported(s, 1, Err(OperationCanceled)) && s.calls[1].guard == NoTimer
    ensures s.calls[1].token == Some(0) && s.tokens == [Token(false, true, true)] && s.cancellers == []
  {
    hide Reached;
    ExpiryReached();
    ReadingReached();
    var failed: Outcome := Err(Own(5));
    Then(Reading(None, Running), Return(1, Err(5)), Reading(Some(failed), Returned));
    s := Reading(Some(failed), Reported(Err(OperationCanceled)));
    Then(Reading(Some(failed), Returned), Label(1), s);
  }
}
