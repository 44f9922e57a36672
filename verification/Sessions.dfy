/**
 The console's API client: stored tokens, calls that are retried once after a
 rejected token, and the rotation of tokens that concurrent calls share.

 JavaScript runs one piece of code at a time, from one `await` to the next. Every
 such piece is an event here, and a run is any sequence of events: calls, replies,
 logins and sign-outs may interleave in every order.
 */
module Sessions {
  import opened Runs
  import opened Wrappers

  type Token = string

  /** What `saveSession` puts into the browser's storage. */
  datatype Tokens = Tokens(access: Token, refresh: Token)

  /**
   One execution of `rotateSession`: awaiting its reply; settled, while its
   `finally` has still to clear `refreshPromise`; and over, with that outcome.
   */
  datatype Rotation = Flying(token: Token) | Settled(ok: bool) | Over(ok: bool)

  /** Where an `api` call is: awaiting a rotation, awaiting the reply to its request, or finished. */
  datatype Phase =
    | Waiting(rotation: nat, retried: bool)
    | Sent(retried: bool, token: Option<Token>)
    | Finished(ok: bool)

  /** `onLoad` is the page's first call, whose failure the page answers by clearing the session. */
  datatype Call = Call(onLoad: bool, phase: Phase, requests: nat, cleared: bool)

  datatype Client = Client(
    stored: Option<Tokens>,
    refreshPromise: Option<nat>,
    rotations: seq<Rotation>,
    calls: seq<Call>)

  /** The reply to a login or a rotation: new tokens, a good reply without them, 401 or 403, anything else. */
  datatype Grant = Granted(tokens: Tokens) | Incomplete | Rejected | Unavailable

  datatype Status = Good | Unauthorized | Bad

  datatype Event =
    | CallStarted(onLoad: bool, stale: bool)
    | CallReply(call: nat, status: Status)
    | CallResumed(call: nat)
    | RotationReply(rotation: nat, grant: Grant)
    | RotationFinally(rotation: nat)
    | LoginReply(grant: Grant)
    | SignedOut
    | LoadFailed(call: nat)

  // ---------------------------------------------------------------------- the steps

  /** `localStorage.getItem(ACCESS_KEY)`. */
  function Access(s: Client): Option<Token> {
    if s.stored.Some? then Some(s.stored.value.access) else None
  }

  /** `refresh` joins the rotation there is, or starts one; without a refresh token that fails at once. */
  function AfterRefresh(s: Client): (t: Client)
    ensures t.refreshPromise.Some? && t.stored == s.stored && t.calls == s.calls
  {
    if s.refreshPromise.Some? then s
    else
      s.(refreshPromise := Some(|s.rotations|),
         rotations := s.rotations + [if s.stored.Some? then Flying(s.stored.value.refresh) else Settled(false)])
  }

  /** `stale` says that the stored access token expires within five minutes. */
  function AfterCallStarted(s: Client, onLoad: bool, stale: bool): Client {
    if s.stored.Some? && stale then
      var t := AfterRefresh(s);
      t.(calls := t.calls + [Call(onLoad, Waiting(t.refreshPromise.value, false), 0, false)])
    else s.(calls := s.calls + [Call(onLoad, Sent(false, Access(s)), 1, false)])
  }

  function SetPhase(s: Client, c: nat, phase: Phase): Client
    requires c < |s.calls|
  {
    s.(calls := s.calls[c := s.calls[c].(phase := phase)])
  }

  predicate AwaitsReply(s: Client, c: nat) {
    c < |s.calls| && s.calls[c].phase.Sent?
  }

  function AfterCallReply(s: Client, c: nat, status: Status): Client {
    if !AwaitsReply(s, c) then s
    else if status.Unauthorized? && !s.calls[c].phase.retried then
      SetPhase(AfterRefresh(s), c, Waiting(AfterRefresh(s).refreshPromise.value, true))
    else SetPhase(s, c, Finished(status.Good?))
  }

  predicate CanResume(s: Client, c: nat) {
    && c < |s.calls| && s.calls[c].phase.Waiting?
    && s.calls[c].phase.rotation < |s.rotations| && s.rotations[s.calls[c].phase.rotation].Over?
  }

  /** Past its `await refresh()`: the request goes out with whatever token is stored now, or the call fails too. */
  function AfterCallResumed(s: Client, c: nat): Client {
    if !CanResume(s, c) then s
    else
      var call := s.calls[c];
      if s.rotations[call.phase.rotation].ok then
        s.(calls := s.calls[c := call.(phase := Sent(call.phase.retried, Access(s)), requests := call.requests + 1)])
      else SetPhase(s, c, Finished(false))
  }

  predicate IsFlying(s: Client, r: nat) {
    r < |s.rotations| && s.rotations[r].Flying?
  }

  function AfterRotationReply(s: Client, r: nat, grant: Grant): Client {
    if !IsFlying(s, r) then s
    else
      match grant
      case Granted(tokens) => s.(stored := Some(tokens), rotations := s.rotations[r := Settled(true)])
      case Rejected => s.(stored := None, rotations := s.rotations[r := Settled(false)])
      case _ => s.(rotations := s.rotations[r := Settled(false)])
  }

  predicate IsSettled(s: Client, r: nat) {
    r < |s.rotations| && s.rotations[r].Settled?
  }

  function AfterRotationFinally(s: Client, r: nat): Client {
    if !IsSettled(s, r) then s
    else s.(refreshPromise := None, rotations := s.rotations[r := Over(s.rotations[r].ok)])
  }

  function AfterLoginReply(s: Client, grant: Grant): Client {
    if grant.Granted? then s.(stored := Some(grant.tokens)) else s
  }

  predicate ClearsOnLoad(s: Client, c: nat) {
    c < |s.calls| && s.calls[c].onLoad && s.calls[c].phase == Finished(false) && !s.calls[c].cleared
  }

  function AfterLoadFailed(s: Client, c: nat): Client {
    if ClearsOnLoad(s, c) then s.(stored := None, calls := s.calls[c := s.calls[c].(cleared := true)]) else s
  }

  function Step(s: Client, e: Event): Client {
    match e
    case CallStarted(onLoad, stale) => AfterCallStarted(s, onLoad, stale)
    case CallReply(c, status) => AfterCallReply(s, c, status)
    case CallResumed(c) => AfterCallResumed(s, c)
    case RotationReply(r, grant) => AfterRotationReply(s, r, grant)
    case RotationFinally(r) => AfterRotationFinally(s, r)
    case LoginReply(grant) => AfterLoginReply(s, grant)
    case SignedOut => s.(stored := None)
    case LoadFailed(c) => AfterLoadFailed(s, c)
  }

  /** The page just loaded, with whatever an earlier visit stored. */
  function Loaded(stored: Option<Tokens>): Client {
    Client(stored, None, [], [])
  }

  // ------------------------------------------------------------------ the module's state

  /** The module's variable, the browser's storage, and the calls and rotations under way. */
  class ApiClient {
    var stored: Option<Tokens>
    var refreshPromise: Option<nat>
    var rotations: seq<Rotation>
    var calls: seq<Call>

    ghost function State(): Client
      reads this
    {
      Client(stored, refreshPromise, rotations, calls)
    }

    constructor (stored: Option<Tokens>)
      ensures State() == Loaded(stored)
    {
      this.stored, refreshPromise, rotations, calls := stored, None, [], [];
    }

    method Refresh() returns (r: nat)
      modifies this`refreshPromise, this`rotations
      ensures State() == AfterRefresh(old(State())) && refreshPromise == Some(r)
    {
      if refreshPromise.None? {
        refreshPromise := Some(|rotations|);
        var started := if stored.Some? then Flying(stored.value.refresh) else Settled(false);
        rotations := rotations + [started];
      }
      r := refreshPromise.value;
    }

    /** `api`, up to its first `await`. */
    method StartCall(onLoad: bool, stale: bool) returns (c: nat)
      modifies this`refreshPromise, this`rotations, this`calls
      ensures State() == Step(old(State()), CallStarted(onLoad, stale)) && c == |old(calls)|
    {
      c := |calls|;
      if stored.Some? && stale {
        var r := Refresh();
        calls := calls + [Call(onLoad, Waiting(r, false), 0, false)];
      } else {
        var token := if stored.Some? then Some(stored.value.access) else None;
        calls := calls + [Call(onLoad, Sent(false, token), 1, false)];
      }
    }

    method ReceiveReply(c: nat, status: Status)
      requires AwaitsReply(State(), c)
      modifies this`refreshPromise, this`rotations, this`calls
      ensures State() == Step(old(State()), CallReply(c, status))
    {
      if status.Unauthorized? && !calls[c].phase.retried {
        var r := Refresh();
        calls := calls[c := calls[c].(phase := Waiting(r, true))];
      } else {
        calls := calls[c := calls[c].(phase := Finished(status.Good?))];
      }
    }

    method Resume(c: nat)
      requires CanResume(State(), c)
      modifies this`calls
      ensures State() == Step(old(State()), CallResumed(c))
    {
      var call := calls[c];
      if rotations[call.phase.rotation].ok {
        var token := if stored.Some? then Some(stored.value.access) else None;
        calls := calls[c := call.(phase := Sent(call.phase.retried, token), requests := call.requests + 1)];
      } else {
        calls := calls[c := call.(phase := Finished(false))];
      }
    }

    /** `rotateSession`, past its request. */
    method FinishRotation(r: nat, grant: Grant)
      requires IsFlying(State(), r)
      modifies this`stored, this`rotations
      ensures State() == Step(old(State()), RotationReply(r, grant))
    {
      if grant.Rejected? {
        stored := None;
      }
      if grant.Granted? {
        stored := Some(grant.tokens);
      }
      rotations := rotations[r := Settled(grant.Granted?)];
    }

    /** The `finally` of `refresh`. */
    method ClearPromise(r: nat)
      requires IsSettled(State(), r)
      modifies this`refreshPromise, this`rotations
      ensures State() == Step(old(State()), RotationFinally(r))
    {
      refreshPromise := None;
      rotations := rotations[r := Over(rotations[r].ok)];
    }

    /** `login`, past its request. */
    method FinishLogin(grant: Grant)
      modifies this`stored
      ensures State() == Step(old(State()), LoginReply(grant))
    {
      if grant.Granted? {
        stored := Some(grant.tokens);
      }
    }

    method ClearSession()
      modifies this`stored
      ensures State() == Step(old(State()), SignedOut)
    {
      stored := None;
    }

    /** The page's answer to a failed first call. */
    method AnswerFailedLoad(c: nat)
      requires ClearsOnLoad(State(), c)
      modifies this`stored, this`calls
      ensures State() == Step(old(State()), LoadFailed(c))
    {
      ClearSession();
      calls := calls[c := calls[c].(cleared := true)];
    }
  }

  // ------------------------------------------------------------------ the invariant

  /** `refreshPromise` is the one rotation that is not over, if there is one. */
  ghost predicate SingleFlight(s: Client) {
    forall r: nat | r < |s.rotations| :: !s.rotations[r].Over? <==> s.refreshPromise == Some(r)
  }

  /** What a call has sent by the time it is where it is; it waits only for rotations there are. */
  predicate CallOk(call: Call, rotations: nat) {
    match call.phase
    case Waiting(r, retried) => r < rotations && call.requests == if retried then 1 else 0
    case Sent(retried, _) => call.requests == if retried then 2 else 1
    case Finished(_) => call.requests <= 2
  }

  ghost predicate Inv(s: Client) {
    && SingleFlight(s) && (s.refreshPromise.Some? ==> s.refreshPromise.value < |s.rotations|)
    && forall c | 0 <= c < |s.calls| :: CallOk(s.calls[c], |s.rotations|)
  }

  lemma RefreshKeepsInv(s: Client)
    requires Inv(s)
    ensures Inv(AfterRefresh(s)) && |s.rotations| <= |AfterRefresh(s).rotations|
  {
  }

  lemma StepKeepsInv(s: Client, e: Event)
    requires Inv(s)
    ensures Inv(Step(s, e))
  {
    RefreshKeepsInv(s);
  }

  /** Over every run at most one rotation is not over, and no call sends more than two requests. */
  lemma RunsAreSingleFlight(stored: Option<Tokens>, es: seq<Event>)
    ensures Inv(Run(Loaded(stored), es, Step))
    ensures var s := Run(Loaded(stored), es, Step);
            && (forall q: nat, r: nat | q < |s.rotations| && r < |s.rotations|
                                        && !s.rotations[q].Over? && !s.rotations[r].Over? :: q == r)
            && (forall c | 0 <= c < |s.calls| :: s.calls[c].requests <= 2)
  {
    forall t, e | Inv(t) && e in es ensures Inv(Step(t, e)) {
      StepKeepsInv(t, e);
    }
    RunKeeps(Loaded(stored), es, Step, Inv);
  }

  // ------------------------------------------------------------ retried once, and why

  /** The call got a 401 in this run. */
  ghost predicate Refused(es: seq<Event>, c: nat) {
    exists i | 0 <= i < |es| :: es[i] == CallReply(c, Unauthorized)
  }

  /** Some rotation of this run brought new tokens. */
  ghost predicate Rotated(es: seq<Event>) {
    exists i | 0 <= i < |es| :: es[i].RotationReply? && es[i].grant.Granted?
  }

  /** What a call's state says about the run so far. */
  ghost predicate Explained(s: Client, es: seq<Event>, c: nat)
    requires c < |s.calls|
  {
    var call := s.calls[c];
    && (call.phase.Waiting? && call.phase.retried ==> Refused(es, c))
    && (call.requests == 2 ==> Refused(es, c) && Rotated(es))
  }

  ghost predicate AllExplained(s: Client, es: seq<Event>) {
    && (forall c: nat | c < |s.calls| :: Explained(s, es, c))
    && (forall r: nat | r < |s.rotations| && (s.rotations[r] == Settled(true) || s.rotations[r] == Over(true)) ::
          Rotated(es))
  }

  lemma EarlierStays(es: seq<Event>, e: Event, c: nat)
    ensures Refused(es, c) ==> Refused(es + [e], c)
    ensures Rotated(es) ==> Rotated(es + [e])
    ensures e == CallReply(c, Unauthorized) ==> Refused(es + [e], c)
    ensures e.RotationReply? && e.grant.Granted? ==> Rotated(es + [e])
  {
    var all := es + [e];
    assert all[|es|] == e;
    if i :| 0 <= i < |es| && es[i] == CallReply(c, Unauthorized) {
      assert all[i] == es[i];
    }
    if i :| 0 <= i < |es| && es[i].RotationReply? && es[i].grant.Granted? {
      assert all[i] == es[i];
    }
  }

  /** A call that an event touches is started, answered, resumed, or marked; every other stays as it was. */
  lemma StepExplainsCall(s: Client, es: seq<Event>, e: Event, c: nat)
    requires Inv(s) && AllExplained(s, es) && c < |Step(s, e).calls|
    ensures Explained(Step(s, e), es + [e], c)
  {
    EarlierStays(es, e, c);
    if c < |s.calls| {
      assert Explained(s, es, c) && CallOk(s.calls[c], |s.rotations|);
      if e == CallResumed(c) && CanResume(s, c) {
        assert s.rotations[s.calls[c].phase.rotation].ok ==> Rotated(es);
      }
    }
  }

  lemma StepExplainsRotations(s: Client, es: seq<Event>, e: Event)
    requires AllExplained(s, es)
    ensures var t := Step(s, e);
            forall r: nat | r < |t.rotations| && (t.rotations[r] == Settled(true) || t.rotations[r] == Over(true)) ::
              Rotated(es + [e])
  {
    EarlierStays(es, e, 0);
  }

  lemma StepExplained(s: Client, es: seq<Event>, e: Event)
    requires Inv(s) && AllExplained(s, es)
    ensures AllExplained(Step(s, e), es + [e])
  {
    forall c: nat | c < |Step(s, e).calls| ensures Explained(Step(s, e), es + [e], c) {
      StepExplainsCall(s, es, e, c);
    }
    StepExplainsRotations(s, es, e);
  }

  /** A call sends a second request only after a 401 to it, and only once a rotation has brought new tokens. */
  lemma {:induction false} SecondRequestExplained(stored: Option<Tokens>, es: seq<Event>)
    ensures AllExplained(Run(Loaded(stored), es, Step), es)
  {
    if es != [] {
      var n := |es| - 1;
      SecondRequestExplained(stored, es[..n]);
      RunsAreSingleFlight(stored, es[..n]);
      StepExplained(Run(Loaded(stored), es[..n], Step), es[..n], es[n]);
      assert es == es[..n] + [es[n]];
    }
  }

  // ------------------------------------------------------------- when a session is lost

  /** The event clears the session: a sign-out, a rotation turned down with 401 or 403, or the failed first call. */
  predicate Clears(s: Client, e: Event) {
    || e.SignedOut?
    || (e.RotationReply? && e.grant.Rejected? && IsFlying(s, e.rotation))
    || (e.LoadFailed? && ClearsOnLoad(s, e.call))
  }

  /** A stored session is lost exactly to such an event; no other reply, however bad, costs it. */
  lemma SessionLostIff(s: Client, e: Event)
    requires s.stored.Some?
    ensures Step(s, e).stored.None? <==> Clears(s, e)
  {
  }

  /** The first call failing for any reason costs the session: here the server was merely unavailable. */
  lemma UnavailableLoadExample(tokens: Tokens)
    ensures Run(Loaded(Some(tokens)), [CallStarted(true, false), CallReply(0, Bad), LoadFailed(0)], Step).stored.None?
  {
    var call := Call(true, Sent(false, Some(tokens.access)), 1, false);
    var started := Client(Some(tokens), None, [], [call]);
    assert Step(Loaded(Some(tokens)), CallStarted(true, false)) == started;
    assert Step(started, CallReply(0, Bad)).calls[0] == call.(phase := Finished(false));
    RunOfThree(Loaded(Some(tokens)), CallStarted(true, false), CallReply(0, Bad), LoadFailed(0));
  }

  lemma RunOfThree(s: Client, a: Event, b: Event, c: Event)
    ensures Run(s, [a, b, c], Step) == Step(Step(Step(s, a), b), c)
  {
    assert [a][..0] == [] && [a, b][..1] == [a] && [a, b, c][..2] == [a, b];
    assert Run(s, [a], Step) == Step(s, a);
    assert Run(s, [a, b], Step) == Step(Step(s, a), b);
  }

  // ------------------------------------------------------------ when a sign-out is undone

  ghost predicate NoLogin(es: seq<Event>) {
    forall i | 0 <= i < |es| :: !(es[i].LoginReply? && es[i].grant.Granted?)
  }

  ghost predicate Answered(es: seq<Event>, r: nat) {
    exists i | 0 <= i < |es| :: es[i].RotationReply? && es[i].rotation == r
  }

  /** The i-th event is the first reply to a rotation that was under way from the start, and brings tokens. */
  ghost predicate Restores(s: Client, es: seq<Event>, i: nat) {
    && i < |es| && es[i].RotationReply? && es[i].grant.Granted?
    && IsFlying(s, es[i].rotation) && !Answered(es[..i], es[i].rotation)
  }

  /** Signed out, with no rotation under way but those of s that es has not answered. */
  ghost predicate Quiet(s: Client, es: seq<Event>, t: Client) {
    && t.stored.None? && |s.rotations| <= |t.rotations|
    && forall r: nat :: IsFlying(t, r) <==> IsFlying(s, r) && !Answered(es, r)
  }

  lemma AnsweredSnoc(es: seq<Event>, e: Event, r: nat)
    ensures Answered(es + [e], r) <==> Answered(es, r) || (e.RotationReply? && e.rotation == r)
  {
    var all := es + [e];
    assert all[|es|] == e;
    if i :| 0 <= i < |es| && es[i].RotationReply? && es[i].rotation == r {
      assert all[i] == es[i];
    }
  }

  lemma StepQuiet(s: Client, es: seq<Event>, t: Client, e: Event)
    requires Quiet(s, es, t)
    requires !(e.LoginReply? && e.grant.Granted?)
    requires !(e.RotationReply? && e.grant.Granted? && IsFlying(t, e.rotation))
    ensures Quiet(s, es + [e], Step(t, e))
  {
    forall r: nat ensures IsFlying(Step(t, e), r) <==> IsFlying(s, r) && !Answered(es + [e], r) {
      AnsweredSnoc(es, e, r);
    }
  }

  lemma {:induction false} StaysQuiet(s: Client, es: seq<Event>)
    requires s.stored.None? && NoLogin(es)
    requires forall i: nat | i < |es| :: !Restores(s, es, i)
    ensures Quiet(s, es, Run(s, es, Step))
  {
    if es != [] {
      var n := |es| - 1;
      forall i: nat | i < n ensures !Restores(s, es[..n], i) {
        assert es[..n][..i] == es[..i];
        assert !Restores(s, es, i);
      }
      StaysQuiet(s, es[..n]);
      assert !Restores(s, es, n);
      assert es == es[..n] + [es[n]];
      StepQuiet(s, es[..n], Run(s, es[..n], Step), es[n]);
    }
  }

  /** At some point of the run a session is stored again. */
  ghost predicate Returns(s: Client, es: seq<Event>) {
    exists k | 0 <= k <= |es| :: Run(s, es[..k], Step).stored.Some?
  }

  lemma FirstRestore(s: Client, es: seq<Event>, i: nat) returns (k: nat)
    requires Restores(s, es, i)
    ensures Restores(s, es, k) && forall j: nat | j < k :: !Restores(s, es, j)
  {
    k := 0;
    while !Restores(s, es, k)
      invariant k <= i && forall j: nat | j < k :: !Restores(s, es, j)
      decreases i - k
    {
      k := k + 1;
    }
  }

  lemma RestoreReturns(s: Client, es: seq<Event>, k: nat)
    requires s.stored.None? && NoLogin(es)
    requires Restores(s, es, k) && forall j: nat | j < k :: !Restores(s, es, j)
    ensures Returns(s, es)
  {
    forall i: nat | i < k ensures !Restores(s, es[..k], i) {
      assert es[..k][..i] == es[..i];
      assert !Restores(s, es, i);
    }
    StaysQuiet(s, es[..k]);
    assert es[..k + 1][..k] == es[..k];
    assert Run(s, es[..k + 1], Step) == Step(Run(s, es[..k], Step), es[k]);
  }

  /**
   After a sign-out and until the next login the session comes back exactly when a
   rotation that was awaiting its reply at the sign-out is answered with tokens.
   */
  lemma SignOutUndoneIff(s: Client, es: seq<Event>)
    requires s.stored.None? && NoLogin(es)
    ensures Returns(s, es) <==> exists i: nat :: Restores(s, es, i)
  {
    if i: nat :| Restores(s, es, i) {
      var k := FirstRestore(s, es, i);
      RestoreReturns(s, es, k);
    } else if k :| 0 <= k <= |es| && Run(s, es[..k], Step).stored.Some? {
      forall i: nat | i < |es[..k]| ensures !Restores(s, es[..k], i) {
        assert es[..k][..i] == es[..i];
        assert !Restores(s, es, i);
      }
      StaysQuiet(s, es[..k]);
      assert false;
    }
  }

  /** Signing out is final, whatever happens short of a login, exactly when no rotation awaits its reply. */
  lemma SignOutFinalIff(s: Client)
    ensures (forall es | NoLogin(es) :: !Returns(Step(s, SignedOut), es)) <==> forall r: nat :: !IsFlying(s, r)
  {
    var out := Step(s, SignedOut);
    assert forall r: nat :: IsFlying(out, r) <==> IsFlying(s, r);
    if r: nat :| IsFlying(s, r) {
      var es := [RotationReply(r, Granted(Tokens("a", "r")))];
      assert es[..0] == [];
      assert Restores(out, es, 0);
      SignOutUndoneIff(out, es);
    } else {
      forall es | NoLogin(es) ensures !Returns(out, es) {
        SignOutUndoneIff(out, es);
      }
    }
  }

  // ----------------------------------------------------------- what a request carries

  function RequestsOf(s: Client, c: nat): nat {
    if c < |s.calls| then s.calls[c].requests else 0
  }

  /** Every request that the event sends carries the access token stored at that moment, or none. */
  ghost predicate CarriesAccess(s: Client, t: Client) {
    forall c: nat | c < |t.calls| && RequestsOf(t, c) > RequestsOf(s, c) ::
      && t.calls[c].phase.Sent?
      && t.calls[c].phase.token == if s.stored.Some? then Some(s.stored.value.access) else None
  }

  /** Every rotation that the event starts carries the refresh token stored at that moment, or fails without one. */
  ghost predicate CarriesRefresh(s: Client, t: Client) {
    forall r: nat | |s.rotations| <= r < |t.rotations| ::
      t.rotations[r] == if s.stored.Some? then Flying(s.stored.value.refresh) else Settled(false)
  }

  lemma StepCarries(s: Client, e: Event)
    ensures CarriesAccess(s, Step(s, e)) && CarriesRefresh(s, Step(s, e))
  {
  }

  /** So does every request of every run, whatever was stored, replaced or cleared before it. */
  lemma RequestsCarryStored(stored: Option<Tokens>, es: seq<Event>, k: nat)
    requires k < |es|
    ensures var s, t := Run(Loaded(stored), es[..k], Step), Run(Loaded(stored), es[..k + 1], Step);
            CarriesAccess(s, t) && CarriesRefresh(s, t)
  {
    assert es[..k + 1][..k] == es[..k];
    StepCarries(Run(Loaded(stored), es[..k], Step), es[k]);
  }

  // ------------------------------------------------------------------- what is stored

  /** What the event writes to the storage: the tokens it was granted, nothing at all, or no change. */
  function Written(s: Client, e: Event): Option<Option<Tokens>> {
    if e.LoginReply? && e.grant.Granted? then Some(Some(e.grant.tokens))
    else if e.RotationReply? && e.grant.Granted? && IsFlying(s, e.rotation) then Some(Some(e.grant.tokens))
    else if Clears(s, e) then Some(None)
    else None
  }

  lemma StepWrites(s: Client, e: Event)
    ensures Step(s, e).stored == if Written(s, e).Some? then Written(s, e).value else s.stored
  {
  }

  /** Nothing is written from the i-th event on. */
  ghost predicate NotWrittenFrom(s: Client, es: seq<Event>, i: nat) {
    forall j | i <= j < |es| :: Written(Run(s, es[..j], Step), es[j]).None?
  }

  /** What is stored stays until something is written. */
  lemma {:induction false} StoredSince(s: Client, es: seq<Event>, i: nat)
    requires i <= |es| && NotWrittenFrom(s, es, i)
    ensures Run(s, es, Step).stored == Run(s, es[..i], Step).stored
  {
    if i == |es| {
      assert es[..i] == es;
    } else {
      var n := |es| - 1;
      forall j | i <= j < n ensures Written(Run(s, es[..n][..j], Step), es[..n][j]).None? {
        assert es[..n][..j] == es[..j];
      }
      StoredSince(s, es[..n], i);
      assert es[..n][..i] == es[..i];
      StepWrites(Run(s, es[..n], Step), es[n]);
    }
  }

  /** At the end of every run the storage holds the last tokens written, or what was there when nothing was. */
  lemma StoredIsLatest(s: Client, es: seq<Event>, i: nat)
    requires i < |es| && NotWrittenFrom(s, es, i + 1)
    requires Written(Run(s, es[..i], Step), es[i]).Some?
    ensures Some(Run(s, es, Step).stored) == Written(Run(s, es[..i], Step), es[i])
  {
    StoredSince(s, es, i + 1);
    assert es[..i + 1][..i] == es[..i];
    StepWrites(Run(s, es[..i], Step), es[i]);
  }

  // ------------------------------------------------------------ a refused call's course

  lemma RunOfFour(s: Client, a: Event, b: Event, c: Event, d: Event)
    ensures Run(s, [a, b, c, d], Step) == Step(Step(Step(Step(s, a), b), c), d)
  {
    assert [a, b, c, d][..3] == [a, b, c];
    RunOfThree(s, a, b, c);
  }

  /** What is stored after a rotation's reply. */
  ghost predicate StoredAfter(before: Option<Tokens>, grant: Grant, after: Option<Tokens>) {
    match grant
    case Granted(tokens) => after == Some(tokens)
    case Rejected => after == None
    case _ => after == before
  }

  lemma RotationEnds(s: Client, r: nat, grant: Grant)
    requires IsFlying(s, r)
    ensures var t := Step(Step(s, RotationReply(r, grant)), RotationFinally(r));
            && t.calls == s.calls && t.refreshPromise.None? && StoredAfter(s.stored, grant, t.stored)
            && r < |t.rotations| && t.rotations[r] == Over(grant.Granted?)
  {
  }

  /** A waiting call whose rotation is over goes on with the stored access token, or fails with the rotation. */
  lemma WaitingEnds(s: Client, c: nat)
    requires CanResume(s, c)
    ensures var t := Step(s, CallResumed(c));
            && t.stored == s.stored && c < |t.calls|
            && t.calls[c].phase
               == if !s.rotations[s.calls[c].phase.rotation].ok then Finished(false)
                  else Sent(s.calls[c].phase.retried, if s.stored.Some? then Some(s.stored.value.access) else None)
  {
  }

  /**
   A call refused for the first time, while no other rotation is under way: it waits
   for a rotation with the stored refresh token. Granted new tokens it goes out again
   with the new access token; otherwise it fails, and only a 401 or 403 costs the session.
   */
  lemma RefusedCallRetries(s: Client, c: nat, grant: Grant)
    requires AwaitsReply(s, c) && !s.calls[c].phase.retried && s.stored.Some? && s.refreshPromise.None?
    ensures var r := |s.rotations|;
            var t := Run(s, [CallReply(c, Unauthorized), RotationReply(r, grant), RotationFinally(r), CallResumed(c)],
                         Step);
            && c < |t.calls| && t.refreshPromise.None? && StoredAfter(s.stored, grant, t.stored)
            && t.calls[c].phase == if grant.Granted? then Sent(true, Some(grant.tokens.access)) else Finished(false)
  {
    var r := |s.rotations|;
    var waiting := Step(s, CallReply(c, Unauthorized));
    assert IsFlying(waiting, r) && waiting.calls[c].phase == Waiting(r, true);
    RunOfFour(s, CallReply(c, Unauthorized), RotationReply(r, grant), RotationFinally(r), CallResumed(c));
    RotationEnds(waiting, r, grant);
    WaitingEnds(Step(Step(waiting, RotationReply(r, grant)), RotationFinally(r)), c);
  }

  /** A call made with a token about to expire waits for a rotation first, and then goes out with the new token. */
  lemma StaleCallRotatesFirst(s: Client, onLoad: bool, grant: Grant)
    requires s.stored.Some? && s.refreshPromise.None?
    ensures var c, r := |s.calls|, |s.rotations|;
            var t := Run(s, [CallStarted(onLoad, true), RotationReply(r, grant), RotationFinally(r), CallResumed(c)],
                         Step);
            && c < |t.calls| && StoredAfter(s.stored, grant, t.stored)
            && t.calls[c].phase == if grant.Granted? then Sent(false, Some(grant.tokens.access)) else Finished(false)
  {
    var c, r := |s.calls|, |s.rotations|;
    var waiting := Step(s, CallStarted(onLoad, true));
    assert IsFlying(waiting, r) && waiting.calls[c].phase == Waiting(r, false);
    RunOfFour(s, CallStarted(onLoad, true), RotationReply(r, grant), RotationFinally(r), CallResumed(c));
    RotationEnds(waiting, r, grant);
    WaitingEnds(Step(Step(waiting, RotationReply(r, grant)), RotationFinally(r)), c);
  }

  /** Any other call goes out at once, and any other reply ends its call: well exactly when it is good. */
  lemma OtherwiseAtOnce(s: Client, onLoad: bool, stale: bool, c: nat, status: Status)
    ensures !(s.stored.Some? && stale) ==>
              var t := Step(s, CallStarted(onLoad, stale));
              t.calls[..|s.calls|] == s.calls && |t.calls| == |s.calls| + 1
              && t.calls[|s.calls|].phase == Sent(false, if s.stored.Some? then Some(s.stored.value.access) else None)
              && t.calls[|s.calls|].onLoad == onLoad
    ensures AwaitsReply(s, c) && !(status.Unauthorized? && !s.calls[c].phase.retried) ==>
              var t := Step(s, CallReply(c, status));
              |t.calls| == |s.calls| && t.calls[c].phase == Finished(status.Good?)
              && t.rotations == s.rotations && t.stored == s.stored
  {
  }

  /** Two calls refused together wait for the same rotation. */
  lemma RefusedCallsShare(s: Client, c: nat, d: nat)
    requires Inv(s) && c != d && AwaitsReply(s, c) && AwaitsReply(s, d)
    requires !s.calls[c].phase.retried && !s.calls[d].phase.retried
    ensures var t := Step(Step(s, CallReply(c, Unauthorized)), CallReply(d, Unauthorized));
            && c < |t.calls| && d < |t.calls| && t.refreshPromise.Some? && |t.rotations| <= |s.rotations| + 1
            && t.calls[c].phase == t.calls[d].phase == Waiting(t.refreshPromise.value, true)
  {
  }
}
