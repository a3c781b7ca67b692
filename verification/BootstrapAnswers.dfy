/** What a request has to have shown before anything is written for it, and what each answer means. */
module BootstrapAnswers {
  import opened Common
  import opened Identity
  import opened Bootstrap
  import opened BootstrapRuns

  predicate Enabled(c: Config) {
    c.bootstrapToken.Some? && c.bootstrapToken.value != ""
  }

  /** The answer a request with this body may be given. */
  predicate Fair(c: Config, body: BootstrapRequest, answer: Answer) {
    match answer
    case Created(email) => Acceptable(c, body) && email == EmailOf(body)
    case Failed => Enabled(c) && body.token == c.bootstrapToken
    case Refused(status) =>
      || (status == 404 && !Enabled(c))
      || (status == 401 && Enabled(c) && body.token != c.bootstrapToken)
      || (status == 410 && Enabled(c) && body.token == c.bootstrapToken)
      || (status == 400 && Enabled(c) && body.token == c.bootstrapToken && Validate(c, body).Some?)
  }

  /** How far a request with this body may have come. */
  predicate Deserves(c: Config, body: BootstrapRequest, phase: Phase) {
    match phase
    case Received => true
    case Gone => true
    case Connecting => TokenMatches(c.bootstrapToken, body.token)
    case Locking(_) => TokenMatches(c.bootstrapToken, body.token)
    case Checking(_) => TokenMatches(c.bootstrapToken, body.token)
    case Creating(_, email) => Acceptable(c, body) && email == EmailOf(body)
    case Linking(_, email) => Acceptable(c, body) && email == EmailOf(body)
    case Unlocking(_, answer) => Fair(c, body, answer)
    case Returning(_, answer) => Fair(c, body, answer)
    case Answered(answer) => Fair(c, body, answer)
  }

  predicate RequestIsFair(c: Config, w: World, r: nat) {
    r in w.requests ==> Deserves(c, w.requests[r].body, w.requests[r].phase)
  }

  /** A row was written for a request whose token matched and whose fields passed, under its address. */
  predicate RowIsFair(c: Config, w: World, row: (nat, string)) {
    && row.0 in w.requests
    && Acceptable(c, w.requests[row.0].body) && row.1 == EmailOf(w.requests[row.0].body)
  }

  predicate ToldClosed(w: World, r: nat) {
    && r in w.requests && w.requests[r].phase.HasAnswer()
    && w.requests[r].phase.answer == Refused(410)
  }

  ghost predicate Fairness(c: Config, w: World) {
    && (forall r :: RequestIsFair(c, w, r))
    && (forall row :: row in w.created ==> RowIsFair(c, w, row))
    && forall r :: ToldClosed(w, r) ==> IsBootstrapped(c, w.users)
  }

  lemma TokenMeans(c: Config, body: BootstrapRequest)
    ensures TokenMatches(c.bootstrapToken, body.token) <==> Enabled(c) && body.token == c.bootstrapToken
    ensures Enabled(c) <==> c.bootstrapToken !in {None, Some("")}
  {
  }

  predicate IsGate(step: Step) {
    step.Arrive? || step.Authorize? || step.Connect? || step.ConnectFails? || step.LockGranted? || step.LockFails?
  }

  lemma GateKeepsRequestFair(c: Config, w: World, step: Step, r: nat)
    requires IsGate(step) && RequestIsFair(c, w, r)
    ensures RequestIsFair(c, Do(c, w, step), r)
  {
    if r in w.requests {
      TokenMeans(c, w.requests[r].body);
    }
  }

  lemma WorkKeepsRequestFair(c: Config, w: World, step: Step, r: nat)
    requires IsWork(step) && RequestIsFair(c, w, r)
    ensures RequestIsFair(c, Do(c, w, step), r)
  {
    if r in w.requests {
      TokenMeans(c, w.requests[r].body);
    }
  }

  lemma StepKeepsRequestFair(c: Config, w: World, step: Step, r: nat)
    requires RequestIsFair(c, w, r)
    ensures RequestIsFair(c, Do(c, w, step), r)
  {
    if IsGate(step) {
      GateKeepsRequestFair(c, w, step, r);
    } else if IsWork(step) {
      WorkKeepsRequestFair(c, w, step, r);
    }
  }

  /** A request's body is what it came with. */
  lemma BodiesStay(c: Config, w: World, step: Step, r: nat)
    requires r in w.requests
    ensures r in Do(c, w, step).requests && Do(c, w, step).requests[r].body == w.requests[r].body
  {
  }

  lemma NewRowIsTheCreators(c: Config, w: World, step: Step, row: (nat, string))
    requires Ordinary(c, w, step) && row in Do(c, w, step).created && row !in w.created
    ensures row.0 in w.requests && w.requests[row.0].phase.Creating? && w.requests[row.0].phase.email == row.1
  {
  }

  lemma ToldClosedMoves(c: Config, w: World, step: Step, r: nat)
    requires ToldClosed(Do(c, w, step), r)
    ensures ToldClosed(w, r) || IsBootstrapped(c, w.users)
  {
  }

  lemma StepKeepsBootstrapped(c: Config, w: World, step: Step)
    requires c.serviceAccountEmail != "" && Ordinary(c, w, step) && IsBootstrapped(c, w.users)
    ensures IsBootstrapped(c, Do(c, w, step).users)
  {
    PeopleOfTable(c, w.users);
    PeopleOfTable(c, Do(c, w, step).users);
    var email :| email in w.users && Person(c, email);
    StepKeepsPeople(c, w, step, email);
  }

  lemma StepKeepsFairness(c: Config, w: World, step: Step)
    requires c.serviceAccountEmail != "" && Fairness(c, w) && Ordinary(c, w, step)
    ensures Fairness(c, Do(c, w, step))
  {
    var w' := Do(c, w, step);
    forall r ensures RequestIsFair(c, w', r) {
      StepKeepsRequestFair(c, w, step, r);
    }
    forall row | row in w'.created ensures RowIsFair(c, w', row) {
      if row !in w.created {
        NewRowIsTheCreators(c, w, step, row);
        assert RequestIsFair(c, w, row.0);
      }
      BodiesStay(c, w, step, row.0);
    }
    forall r | ToldClosed(w', r) ensures IsBootstrapped(c, w'.users) {
      ToldClosedMoves(c, w, step, r);
      StepKeepsBootstrapped(c, w, step);
    }
  }

  lemma {:induction false} RunsKeepFairness(c: Config, w: World, steps: seq<Step>)
    requires c.serviceAccountEmail != "" && Fairness(c, w) && OrdinaryRun(c, w, steps)
    ensures Fairness(c, Run(c, w, steps))
    decreases |steps|
  {
    if steps != [] {
      StepKeepsFairness(c, w, steps[0]);
      RunsKeepFairness(c, Do(c, w, steps[0]), steps[1..]);
    }
  }

  // What passing every check is, without the function that checks.

  predicate IsAcceptable(c: Config, body: BootstrapRequest) {
    && '@' in body.email
    && (exists i :: 0 <= i < |body.name| && body.name[i] !in Blanks)
    && c.minPassword <= |body.password| <= c.maxPassword
  }

  lemma {:induction false} TrimStartHolds(s: string, x: char)
    requires x !in Blanks
    ensures x in TrimStart(s) <==> x in s
  {
    if s != "" && IsBlank(s[0]) {
      BlanksAre(s[0]);
      TrimStartHolds(s[1..], x);
      assert s == [s[0]] + s[1..];
    }
  }

  lemma {:induction false} TrimEndHolds(s: string, x: char)
    requires x !in Blanks
    ensures x in TrimEnd(s) <==> x in s
  {
    if s != "" && IsBlank(s[|s| - 1]) {
      BlanksAre(s[|s| - 1]);
      TrimEndHolds(s[..|s| - 1], x);
      assert s == s[..|s| - 1] + [s[|s| - 1]];
    }
  }

  lemma AtSignSurvives(email: string)
    ensures '@' in NormalizeEmail(email) <==> '@' in email
  {
    var trimmed := TrimEnd(TrimStart(email));
    TrimStartHolds(email, '@');
    TrimEndHolds(TrimStart(email), '@');
    if '@' in trimmed {
      var i :| 0 <= i < |trimmed| && trimmed[i] == '@';
      assert ToLower(trimmed)[i] == '@';
    }
    if '@' in ToLower(trimmed) {
      var i :| 0 <= i < |trimmed| && ToLower(trimmed)[i] == '@';
      assert LowerChar(trimmed[i]) == '@';
    }
  }

  lemma {:induction false} AllBlankTrimsAway(s: string)
    requires forall i :: 0 <= i < |s| ==> s[i] in Blanks
    ensures TrimStart(s) == ""
  {
    if s != "" {
      BlanksAre(s[0]);
      AllBlankTrimsAway(s[1..]);
    }
  }

  lemma NameIsThere(name: string)
    ensures TrimEnd(TrimStart(name)) != "" <==> exists i :: 0 <= i < |name| && name[i] !in Blanks
  {
    if i :| 0 <= i < |name| && name[i] !in Blanks {
      TrimStartHolds(name, name[i]);
      TrimEndHolds(TrimStart(name), name[i]);
    } else {
      AllBlankTrimsAway(name);
    }
  }

  /** The checks pass exactly on an address with an `@`, a name that is not blank and a password in bounds. */
  lemma ValidateIsExact(c: Config, body: BootstrapRequest)
    ensures Validate(c, body).None? <==> IsAcceptable(c, body)
    ensures Validate(c, body).Some? ==> Validate(c, body) == Some(400)
  {
    AtSignSurvives(body.email);
    NameIsThere(body.name);
  }

  /** What the half under the lock does first: closed before malformed, malformed before anything is written. */
  lemma CheckIsExact(c: Config, w: World, r: nat)
    requires c.serviceAccountEmail != "" && r in w.requests && w.requests[r].phase.Checking?
    ensures var w', s, body := Do(c, w, Check(r)), w.requests[r].phase.session, w.requests[r].body;
            && w'.users == w.users && w'.created == w.created && w'.credentials == w.credentials
            && w'.requests[r].phase
                 == if exists email :: email in w.users && Person(c, email) then Unlocking(s, Refused(410))
                    else if !IsAcceptable(c, body) then Unlocking(s, Refused(400))
                    else Creating(s, EmailOf(body))
  {
    PeopleOfTable(c, w.users);
    ValidateIsExact(c, w.requests[r].body);
  }

  /**
   * In every interleaving an account is only ever written for a request that knew the token and
   * passed every check, and under that request's address.
   */
  lemma OnlyTheTokenHolderWrites(c: Config, table: seq<string>, steps: seq<Step>, row: (nat, string))
    requires c.serviceAccountEmail != "" && OrdinaryRun(c, StartingWith(table), steps)
    requires row in Run(c, StartingWith(table), steps).created
    ensures var w := Run(c, StartingWith(table), steps);
            && row.0 in w.requests
            && var body := w.requests[row.0].body;
               Enabled(c) && body.token == c.bootstrapToken && IsAcceptable(c, body) && row.1 == EmailOf(body)
  {
    RunsKeepFairness(c, StartingWith(table), steps);
    var w := Run(c, StartingWith(table), steps);
    assert RowIsFair(c, w, row);
    ValidateIsExact(c, w.requests[row.0].body);
  }

  /** What an answer says of the request it is given to. */
  predicate Means(c: Config, body: BootstrapRequest, answer: Answer) {
    match answer
    case Failed => Enabled(c) && body.token == c.bootstrapToken
    case Created(email) =>
      Enabled(c) && body.token == c.bootstrapToken && IsAcceptable(c, body) && email == EmailOf(body)
    case Refused(status) =>
      if status == 404 then !Enabled(c)
      else if status == 401 then Enabled(c) && body.token != c.bootstrapToken
      else if status == 410 then Enabled(c) && body.token == c.bootstrapToken
      else status == 400 && Enabled(c) && body.token == c.bootstrapToken && !IsAcceptable(c, body)
  }

  /**
   * Every answer says what is so: not enabled, not the token, closed (and it still is), not
   * acceptable, or created under the request's own address.
   */
  lemma AnswersAreFair(c: Config, table: seq<string>, steps: seq<Step>, r: nat)
    requires c.serviceAccountEmail != "" && OrdinaryRun(c, StartingWith(table), steps)
    requires var w := Run(c, StartingWith(table), steps); r in w.requests && w.requests[r].phase.Answered?
    ensures var w := Run(c, StartingWith(table), steps);
            && Means(c, w.requests[r].body, w.requests[r].phase.answer)
            && (w.requests[r].phase.answer == Refused(410) ==> exists email :: email in w.users && Person(c, email))
  {
    RunsKeepFairness(c, StartingWith(table), steps);
    var w := Run(c, StartingWith(table), steps);
    assert RequestIsFair(c, w, r);
    assert w.requests[r].phase.answer == Refused(410) ==> ToldClosed(w, r);
    ValidateIsExact(c, w.requests[r].body);
    PeopleOfTable(c, w.users);
  }

  /** Addresses stay unique in the table, whatever is written and removed. */
  lemma StepKeepsAddressesUnique(c: Config, w: World, step: Step)
    requires Distinct(w.users)
    ensures Distinct(Do(c, w, step).users)
  {
  }

  /** A lock held twice by one session is let go of once by one unlock. */
  lemma ReleaseUndoesAcquire(lock: Lock, s: nat)
    requires lock.Held? ==> lock.session == s && lock.depth > 0
    ensures Release(Acquire(lock, s), s) == lock && End(Acquire(lock, s), s) == Free
  {
  }

  /**
   * A lock statement that failed after it was granted, and an unlock that failed too, leave a session
   * in the pool that holds the lock: no request on another session gets it until that one is closed.
   */
  lemma LeakedLockKeepsOthersOut(c: Config, w: World, r: nat, q: nat)
    requires r in w.requests && w.requests[r].phase.Locking? && w.lock.Free?
    requires q in w.requests && w.requests[q].phase.Locking?
    requires w.requests[q].phase.session != w.requests[r].phase.session
    ensures var s := w.requests[r].phase.session;
            var leaked := Do(c, Do(c, Do(c, w, LockFails(r, true)), Unlock(r, false)), Return(r));
            && leaked.lock == Held(s, 1) && leaked.requests[r].phase == Answered(Failed)
            && Do(c, leaked, LockGranted(q)) == leaked
            && (!InUse(leaked, s) ==> Do(c, leaked, CloseIdle(s)).lock == Free)
  {
  }
}
