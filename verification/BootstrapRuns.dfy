/** What holds of the account table after every run of bootstrap requests. */
module BootstrapRuns {
  import opened Common
  import opened Identity
  import opened Bootstrap

  // ---- One person at most ----

  lemma TableKeepsOnePerson(c: Config, w: World, w': World)
    requires OnePerson(c, w) && w'.created == w.created
    requires forall email :: email in w.users && Person(c, email) ==> email in w'.users
    requires forall r :: r in w'.requests && w'.requests[r].phase.Creating? ==>
               (r in w.requests && w.requests[r].phase.Creating?) || NoPersonCreated(c, w.created)
    ensures OnePerson(c, w')
  {
  }

  /** The check saw no person, and every person bootstrap created would have been there to see. */
  lemma CheckKeepsOnePerson(c: Config, w: World, r: nat)
    requires c.serviceAccountEmail != "" && OnePerson(c, w)
    ensures OnePerson(c, DoCheck(c, w, r))
  {
    PeopleOfTable(c, w.users);
    var w' := DoCheck(c, w, r);
    if r in w'.requests && w'.requests[r].phase.Creating? && w' != w {
      assert NoPersonCreated(c, w.created);
    }
    TableKeepsOnePerson(c, w, w');
  }

  /** Only the holder of the lock writes, and it leaves the writing phase by doing so. */
  lemma InsertKeepsOnePerson(c: Config, w: World, w': World, r: nat)
    requires OnePerson(c, w) && Exclusive(w) && r in w.requests && w.requests[r].phase.Creating?
    requires var email := w.requests[r].phase.email;
      w'.created == w.created + [(r, email)] && w'.users == w.users + [email]
    requires forall q :: q in w'.requests && w'.requests[q].phase.Creating? ==>
               q != r && q in w.requests && w.requests[q].phase.Creating?
    ensures OnePerson(c, w')
  {
    assert NoPersonCreated(c, w.created);
    forall q ensures !(q in w'.requests && w'.requests[q].phase.Creating?) {
      if q in w'.requests && w'.requests[q].phase.Creating? {
        CriticalIsExclusive(w, q, r);
      }
    }
  }

  lemma RemoveKeepsPeople(c: Config, users: seq<string>, at: nat)
    requires at < |users| && !Person(c, users[at])
    ensures forall email :: email in users && Person(c, email) ==> email in users[..at] + users[at + 1..]
  {
    assert users == users[..at] + [users[at]] + users[at + 1..];
  }

  lemma CreateKeepsOnePerson(c: Config, w: World, step: Step)
    requires OnePerson(c, w) && Exclusive(w) && (step.Create? || step.CreateFails?)
    ensures OnePerson(c, Do(c, w, step))
  {
    var w' := Do(c, w, step);
    if w'.created != w.created {
      InsertKeepsOnePerson(c, w, w', step.r);
    } else {
      TableKeepsOnePerson(c, w, w');
    }
  }

  lemma RemoveKeepsOnePerson(c: Config, w: World, step: Step)
    requires OnePerson(c, w) && Ordinary(c, w, step) && step.RemoveAccount?
    ensures OnePerson(c, Do(c, w, step))
  {
    if step.at < |w.users| {
      RemoveKeepsPeople(c, w.users, step.at);
    }
    TableKeepsOnePerson(c, w, Do(c, w, step));
  }

  lemma StepKeepsOnePerson(c: Config, w: World, step: Step)
    requires c.serviceAccountEmail != "" && OnePerson(c, w) && Exclusive(w) && Ordinary(c, w, step)
    ensures OnePerson(c, Do(c, w, step))
  {
    if step.Check? {
      CheckKeepsOnePerson(c, w, step.r);
    } else if step.Create? || step.CreateFails? {
      CreateKeepsOnePerson(c, w, step);
    } else if step.RemoveAccount? {
      RemoveKeepsOnePerson(c, w, step);
    } else {
      OthersDoNotWrite(c, w, step);
      TableKeepsOnePerson(c, w, Do(c, w, step));
    }
  }

  lemma OthersDoNotWrite(c: Config, w: World, step: Step)
    requires !step.Check? && !step.Create? && !step.CreateFails? && !step.RemoveAccount? && !step.LandLate?
    ensures var w' := Do(c, w, step);
            && w'.created == w.created && w.users <= w'.users
            && forall r :: r in w'.requests && w'.requests[r].phase.Creating? ==>
                 r in w.requests && w.requests[r].phase.Creating?
  {
  }

  // ---- Answers ----

  /** Nothing a request can rely on is ever taken back. */
  lemma HistoryGrows(c: Config, w: World, step: Step)
    ensures w.created <= Do(c, w, step).created && w.credentials <= Do(c, w, step).credentials
  {
  }

  lemma StepKeepsAnswers(c: Config, w: World, step: Step, r: nat)
    requires AnswersAreKept(w, r)
    ensures AnswersAreKept(Do(c, w, step), r)
  {
    var w' := Do(c, w, step);
    HistoryGrows(c, w, step);
    assert forall x :: x in w.created ==> x in w'.created;
    if r in w'.requests {
      PhaseMoves(c, w, step, r);
    }
  }

  /** Where a request can be after a step, as far as what it wrote is concerned. */
  lemma PhaseMoves(c: Config, w: World, step: Step, r: nat)
    requires r in Do(c, w, step).requests
    ensures var w' := Do(c, w, step);
            var after := w'.requests[r].phase;
            || (!after.Linking? && !(after.HasAnswer() && after.answer.Created?))
            || (r in w.requests && after == w.requests[r].phase)
            || (r in w.requests && after.HasAnswer() && w.requests[r].phase.HasAnswer()
                  && after.answer == w.requests[r].phase.answer)
            || (after.Linking? && (r, after.email) in w'.created)
            || (r in w.requests && w.requests[r].phase.Linking? && after.HasAnswer()
                  && after.answer == Created(w.requests[r].phase.email)
                  && w.requests[r].phase.email in w'.credentials)
  {
  }

  // ---- Every run ----

  function StartingWith(table: seq<string>): World {
    Initial.(users := table)
  }

  lemma {:induction false} RunsKeepInv(c: Config, w: World, steps: seq<Step>)
    requires c.serviceAccountEmail != "" && Inv(c, w) && OrdinaryRun(c, w, steps)
    ensures Inv(c, Run(c, w, steps))
    decreases |steps|
  {
    if steps != [] {
      var w' := Do(c, w, steps[0]);
      StepKeepsExclusive(c, w, steps[0]);
      StepKeepsOnePerson(c, w, steps[0]);
      forall r ensures AnswersAreKept(w', r) {
        assert AnswersAreKept(w, r);
        StepKeepsAnswers(c, w, steps[0], r);
      }
      RunsKeepInv(c, w', steps[1..]);
    }
  }

  /** In every interleaving at most one session is in the critical section. */
  lemma MutualExclusion(c: Config, table: seq<string>, steps: seq<Step>, q: nat, r: nat)
    requires c.serviceAccountEmail != "" && OrdinaryRun(c, StartingWith(table), steps)
    requires var w := Run(c, StartingWith(table), steps);
      && q in w.requests && r in w.requests
      && w.requests[q].phase.Critical() && w.requests[r].phase.Critical()
    ensures q == r
  {
    RunsKeepInv(c, StartingWith(table), steps);
    CriticalIsExclusive(Run(c, StartingWith(table), steps), q, r);
  }

  /** Bootstrap has written two rows, each a person's. */
  ghost predicate TwoPeople(c: Config, w: World) {
    exists i, j :: 0 <= i < j < |w.created| && Person(c, w.created[i].1) && Person(c, w.created[j].1)
  }

  /**
   * In every interleaving bootstrap creates at most one person's account, at most one request is
   * told that it did, and the account it is told about is in the table and can sign in.
   */
  lemma AtMostOneAdministrator(c: Config, table: seq<string>, steps: seq<Step>)
    requires c.serviceAccountEmail != "" && OrdinaryRun(c, StartingWith(table), steps)
    ensures var w := Run(c, StartingWith(table), steps);
            && !TwoPeople(c, w)
            && (forall r :: AnsweredPerson(c, w, r) ==>
                  var email := w.requests[r].phase.answer.email; email in w.users && email in w.credentials)
            && (forall q, r :: AnsweredPerson(c, w, q) && AnsweredPerson(c, w, r) ==> q == r)
  {
    var w := Run(c, StartingWith(table), steps);
    RunsKeepInv(c, StartingWith(table), steps);
    forall r | AnsweredPerson(c, w, r)
      ensures var email := w.requests[r].phase.answer.email;
              (r, email) in w.created && email in w.credentials && email in w.users
    {
      assert AnswersAreKept(w, r);
    }
    forall q, r | AnsweredPerson(c, w, q) && AnsweredPerson(c, w, r) ensures q == r {
      assert (q, w.requests[q].phase.answer.email) in w.created;
      assert (r, w.requests[r].phase.answer.email) in w.created;
    }
  }

  predicate AnsweredPerson(c: Config, w: World, r: nat) {
    && r in w.requests && w.requests[r].phase.Answered? && w.requests[r].phase.answer.Created?
    && Person(c, w.requests[r].phase.answer.email)
  }

  // ---- Once closed ----

  /** Somebody has an account, and no request is between its check and the end of its writes. */
  ghost predicate Closed(c: Config, w: World) {
    && (exists email :: email in w.users && Person(c, email))
    && forall r :: r in w.requests ==> !w.requests[r].phase.Creating? && !w.requests[r].phase.Linking?
  }

  lemma StepKeepsPeople(c: Config, w: World, step: Step, email: string)
    requires Ordinary(c, w, step) && email in w.users && Person(c, email)
    ensures email in Do(c, w, step).users
  {
    if step.RemoveAccount? && step.at < |w.users| {
      RemoveKeepsPeople(c, w.users, step.at);
    }
  }

  /** With the check answering yes, no request starts to write; with none writing, nothing is written. */
  lemma NobodyWrites(c: Config, w: World, step: Step)
    requires IsBootstrapped(c, w.users) && Ordinary(c, w, step)
    requires forall r :: r in w.requests ==> !w.requests[r].phase.Creating? && !w.requests[r].phase.Linking?
    ensures var w' := Do(c, w, step);
            && w'.created == w.created && w'.credentials == w.credentials
            && forall r :: r in w'.requests ==> !w'.requests[r].phase.Creating? && !w'.requests[r].phase.Linking?
  {
  }

  lemma StepKeepsClosed(c: Config, w: World, step: Step)
    requires c.serviceAccountEmail != "" && Closed(c, w) && Ordinary(c, w, step)
    ensures var w' := Do(c, w, step);
            Closed(c, w') && w'.created == w.created && w'.credentials == w.credentials
  {
    PeopleOfTable(c, w.users);
    var email :| email in w.users && Person(c, email);
    StepKeepsPeople(c, w, step, email);
    NobodyWrites(c, w, step);
  }

  /** Bootstrap writes nothing more, whatever is asked of it and however often. */
  lemma {:induction false} ClosedStaysClosed(c: Config, w: World, steps: seq<Step>)
    requires c.serviceAccountEmail != "" && Closed(c, w) && OrdinaryRun(c, w, steps)
    ensures var w' := Run(c, w, steps);
            Closed(c, w') && w'.created == w.created && w'.credentials == w.credentials
    decreases |steps|
  {
    if steps != [] {
      StepKeepsClosed(c, w, steps[0]);
      ClosedStaysClosed(c, Do(c, w, steps[0]), steps[1..]);
    }
  }

  // ---- Runs worth knowing ----

  predicate Acceptable(c: Config, body: BootstrapRequest) {
    TokenMatches(c.bootstrapToken, body.token) && Validate(c, body).None?
  }

  function Enter(r: nat, p: nat, s: nat, body: BootstrapRequest): seq<Step> {
    [Arrive(r, p, body), Authorize(r), Connect(r, s), LockGranted(r), Check(r)]
  }

  /** The world after a request took the free lock on a new session and found nobody. */
  function Entered(w: World, r: nat, p: nat, s: nat, body: BootstrapRequest): World {
    w.(lock := Held(s, 1), owner := w.owner[s := p],
       requests := w.requests[r := Request(p, body, Creating(s, NormalizeEmail(body.email)))])
  }

  lemma RunStep(c: Config, w: World, step: Step, rest: seq<Step>)
    ensures Run(c, w, [step] + rest) == Run(c, Do(c, w, step), rest)
  {
    assert ([step] + rest)[1..] == rest;
  }

  lemma RunFive(c: Config, w: World, a: Step, b: Step, d: Step, e: Step, f: Step, rest: seq<Step>)
    ensures Run(c, w, [a, b, d, e, f] + rest)
         == Run(c, Do(c, Do(c, Do(c, Do(c, Do(c, w, a), b), d), e), f), rest)
  {
    var w1 := Do(c, w, a);
    var w2 := Do(c, w1, b);
    var w3 := Do(c, w2, d);
    var w4 := Do(c, w3, e);
    RunStep(c, w, a, [b, d, e, f] + rest);
    RunStep(c, w1, b, [d, e, f] + rest);
    RunStep(c, w2, d, [e, f] + rest);
    RunStep(c, w3, e, [f] + rest);
    RunStep(c, w4, f, rest);
    assert [a, b, d, e, f] + rest == [a] + ([b, d, e, f] + rest);
    assert [b, d, e, f] + rest == [b] + ([d, e, f] + rest);
    assert [d, e, f] + rest == [d] + ([e, f] + rest);
    assert [e, f] + rest == [e] + ([f] + rest);
  }

  /** The world with one request at one place. */
  function With(w: World, r: nat, p: nat, body: BootstrapRequest, phase: Phase): World {
    w.(requests := w.requests[r := Request(p, body, phase)])
  }

  lemma EnterSteps(c: Config, w: World, r: nat, p: nat, s: nat, body: BootstrapRequest, rest: seq<Step>)
    requires Acceptable(c, body) && !IsBootstrapped(c, w.users)
    requires r !in w.requests && w.lock.Free? && s !in w.owner && !InUse(w, s)
    ensures Run(c, w, Enter(r, p, s, body) + rest) == Run(c, Entered(w, r, p, s, body), rest)
  {
    var owned := w.(owner := w.owner[s := p]);
    var w1 := With(w, r, p, body, Received);
    var w2 := With(w, r, p, body, Connecting);
    var w3 := With(owned, r, p, body, Locking(s));
    var w4 := With(owned.(lock := Held(s, 1)), r, p, body, Checking(s));
    Reach(c, w, r, p, s, body);
    assert Do(c, w, Arrive(r, p, body)) == w1 && Do(c, w1, Authorize(r)) == w2;
    assert Do(c, w2, Connect(r, s)) == w3 && Do(c, w3, LockGranted(r)) == w4;
    assert Do(c, w4, Check(r)) == Entered(w, r, p, s, body);
    RunFive(c, w, Arrive(r, p, body), Authorize(r), Connect(r, s), LockGranted(r), Check(r), rest);
  }

  lemma Reach(c: Config, w: World, r: nat, p: nat, s: nat, body: BootstrapRequest)
    requires Acceptable(c, body) && !IsBootstrapped(c, w.users)
    requires r !in w.requests && w.lock.Free? && s !in w.owner && !InUse(w, s)
    ensures var owned := w.(owner := w.owner[s := p]);
            && Do(c, w, Arrive(r, p, body)) == With(w, r, p, body, Received)
            && Do(c, With(w, r, p, body, Received), Authorize(r)) == With(w, r, p, body, Connecting)
            && Do(c, With(w, r, p, body, Connecting), Connect(r, s)) == With(owned, r, p, body, Locking(s))
            && Do(c, With(owned, r, p, body, Locking(s)), LockGranted(r))
                 == With(owned.(lock := Held(s, 1)), r, p, body, Checking(s))
            && Do(c, With(owned.(lock := Held(s, 1)), r, p, body, Checking(s)), Check(r))
                 == Entered(w, r, p, s, body)
  {
    MovesInPlace(w, r, p, body);
    var owned := w.(owner := w.owner[s := p]);
    MovesInPlace(owned, r, p, body);
    Checked(c, w, r, p, s, body);
    var w2 := With(w, r, p, body, Connecting);
    assert !InUse(w2, s) by {
      assert forall q :: q != r && q in w2.requests ==> q in w.requests && w2.requests[q] == w.requests[q];
    }
  }

  lemma Checked(c: Config, w: World, r: nat, p: nat, s: nat, body: BootstrapRequest)
    requires Acceptable(c, body) && !IsBootstrapped(c, w.users)
    ensures Do(c, With(w.(owner := w.owner[s := p], lock := Held(s, 1)), r, p, body, Checking(s)), Check(r))
         == Entered(w, r, p, s, body)
  {
    MovesInPlace(w.(owner := w.owner[s := p], lock := Held(s, 1)), r, p, body);
  }

  lemma MovesInPlace(w: World, r: nat, p: nat, body: BootstrapRequest)
    ensures forall a, b :: Move(With(w, r, p, body, a), r, b) == With(w, r, p, body, b)
  {
    forall a, b ensures Move(With(w, r, p, body, a), r, b) == With(w, r, p, body, b) {
      assert Move(With(w, r, p, body, a), r, b).requests == With(w, r, p, body, b).requests;
    }
  }

  lemma NobodyYet(c: Config)
    ensures !IsBootstrapped(c, [])
  {
  }

  function EmailOf(body: BootstrapRequest): string {
    NormalizeEmail(body.email)
  }

  /** A first request run to its end on a fresh installation. */
  function Whole(body: BootstrapRequest): seq<Step> {
    Enter(0, 0, 0, body) + [Create(0), Link(0), Unlock(0, true), Return(0)]
  }

  function Finished(body: BootstrapRequest): World {
    World([EmailOf(body)], {EmailOf(body)}, [(0, EmailOf(body))], {}, Free, map[0 := 0],
          map[0 := Request(0, body, Answered(Created(EmailOf(body))))])
  }

  lemma RunFour(c: Config, w: World, a: Step, b: Step, d: Step, e: Step, rest: seq<Step>)
    ensures Run(c, w, [a, b, d, e] + rest) == Run(c, Do(c, Do(c, Do(c, Do(c, w, a), b), d), e), rest)
  {
    RunStep(c, w, a, [b, d, e] + rest);
    RunStep(c, Do(c, w, a), b, [d, e] + rest);
    RunStep(c, Do(c, Do(c, w, a), b), d, [e] + rest);
    RunStep(c, Do(c, Do(c, Do(c, w, a), b), d), e, rest);
    assert [a, b, d, e] + rest == [a] + ([b, d, e] + rest);
    assert [b, d, e] + rest == [b] + ([d, e] + rest);
    assert [d, e] + rest == [d] + ([e] + rest);
  }

  /** The first request alone, at one place, with the account table in one state. */
  function Alone(body: BootstrapRequest, email: string, phase: Phase, written: bool, linked: bool, lock: Lock): World {
    World(if written then [email] else [], if linked then {email} else {}, if written then [(0, email)] else [],
          {}, lock, map[0 := 0], map[0 := Request(0, body, phase)])
  }

  function AtCreate(body: BootstrapRequest, email: string): World {
    Alone(body, email, Creating(0, email), false, false, Held(0, 1))
  }

  function AtLink(body: BootstrapRequest, email: string): World {
    Alone(body, email, Linking(0, email), true, false, Held(0, 1))
  }

  function AtUnlock(body: BootstrapRequest, email: string): World {
    Alone(body, email, Unlocking(0, Created(email)), true, true, Held(0, 1))
  }

  function AtReturn(body: BootstrapRequest, email: string): World {
    Alone(body, email, Returning(0, Created(email)), true, true, Free)
  }

  lemma AloneMoves(body: BootstrapRequest, email: string, phase: Phase, phase': Phase,
                   written: bool, linked: bool, lock: Lock)
    ensures Move(Alone(body, email, phase, written, linked, lock), 0, phase')
         == Alone(body, email, phase', written, linked, lock)
  {
    assert Move(Alone(body, email, phase, written, linked, lock), 0, phase').requests
        == Alone(body, email, phase', written, linked, lock).requests;
  }

  lemma CreateStep(c: Config, body: BootstrapRequest, email: string)
    ensures Do(c, AtCreate(body, email), Create(0)) == AtLink(body, email)
  {
    AloneMoves(body, email, Creating(0, email), Linking(0, email), true, false, Held(0, 1));
    assert InsertCreated(AtCreate(body, email), 0, email)
        == Alone(body, email, Creating(0, email), true, false, Held(0, 1));
  }

  lemma LinkStep(c: Config, body: BootstrapRequest, email: string)
    ensures Do(c, AtLink(body, email), Link(0)) == AtUnlock(body, email)
  {
    AloneMoves(body, email, Linking(0, email), Unlocking(0, Created(email)), true, false, Held(0, 1));
  }

  lemma UnlockStep(c: Config, body: BootstrapRequest, email: string)
    ensures Do(c, AtUnlock(body, email), Unlock(0, true)) == AtReturn(body, email)
  {
    AloneMoves(body, email, Unlocking(0, Created(email)), Returning(0, Created(email)), true, true, Held(0, 1));
  }

  lemma ReturnStep(c: Config, body: BootstrapRequest)
    ensures Do(c, AtReturn(body, EmailOf(body)), Return(0)) == Finished(body)
  {
    var email := EmailOf(body);
    AloneMoves(body, email, Returning(0, Created(email)), Answered(Created(email)), true, true, Free);
  }

  lemma FirstEnters(c: Config, body: BootstrapRequest, rest: seq<Step>)
    requires Acceptable(c, body)
    ensures Run(c, Initial, Enter(0, 0, 0, body) + rest) == Run(c, AtCreate(body, EmailOf(body)), rest)
  {
    NobodyYet(c);
    EnterSteps(c, Initial, 0, 0, 0, body, rest);
    assert Entered(Initial, 0, 0, 0, body) == AtCreate(body, EmailOf(body));
  }

  lemma FinishSteps(c: Config, body: BootstrapRequest)
    ensures Do(c, Do(c, Do(c, Do(c, AtCreate(body, EmailOf(body)), Create(0)), Link(0)), Unlock(0, true)), Return(0))
         == Finished(body)
  {
    var email := EmailOf(body);
    CreateStep(c, body, email);
    LinkStep(c, body, email);
    UnlockStep(c, body, email);
    ReturnStep(c, body);
  }

  lemma WholeRun(c: Config, body: BootstrapRequest, rest: seq<Step>)
    requires Acceptable(c, body)
    ensures Run(c, Initial, Whole(body) + rest) == Run(c, Finished(body), rest)
  {
    var tail := [Create(0), Link(0), Unlock(0, true), Return(0)];
    FirstEnters(c, body, tail + rest);
    assert Whole(body) + rest == Enter(0, 0, 0, body) + (tail + rest);
    FinishSteps(c, body);
    RunFour(c, AtCreate(body, EmailOf(body)), Create(0), Link(0), Unlock(0, true), Return(0), rest);
  }

  /**
   * The link is one-time exactly when the address is a person's. An address under one of the two
   * reserved domains is accepted, its account is created and can sign in, and the link stays open.
   */
  lemma LinkClosesExactlyForAPerson(c: Config, body: BootstrapRequest)
    requires c.serviceAccountEmail != "" && Acceptable(c, body)
    ensures var w := Run(c, Initial, Whole(body));
            && 0 in w.requests && w.requests[0].phase == Answered(Created(EmailOf(body)))
            && w.users == [EmailOf(body)] && EmailOf(body) in w.credentials
            && (IsBootstrapped(c, w.users) <==> Person(c, EmailOf(body)))
  {
    WholeRun(c, body, []);
    assert Whole(body) + [] == Whole(body);
    PeopleOfTable(c, [EmailOf(body)]);
  }

  // None of the three things the guarantee rests on can be dropped.

  /** From here a second request, on a second replica and a second session, gets as far as writing. */
  lemma SecondEnters(c: Config, w: World, b: BootstrapRequest, rest: seq<Step>)
    requires Acceptable(c, b) && w.users == [] && w.lock.Free? && w.owner.Keys <= {0} && w.requests.Keys == {0}
    requires w.requests[0].phase.HasSession() ==> w.requests[0].phase.session == 0
    ensures Run(c, w, Enter(1, 1, 1, b) + rest) == Run(c, Entered(w, 1, 1, 1, b), rest)
  {
    NobodyYet(c);
    EnterSteps(c, w, 1, 1, 1, b, rest);
  }

  lemma WritesNext(c: Config, w: World, r: nat, email: string, rest: seq<Step>)
    requires r in w.requests && w.requests[r].phase.Creating? && w.requests[r].phase.email == email && email !in w.users
    ensures Run(c, w, [Create(r)] + rest) == Run(c, Do(c, w, Create(r)), rest)
    ensures var w' := Do(c, w, Create(r));
            && w'.created == w.created + [(r, email)] && w'.users == w.users + [email] && w'.late == w.late
            && forall q :: q != r && q in w.requests ==> q in w'.requests && w'.requests[q] == w.requests[q]
  {
    RunStep(c, w, Create(r), rest);
  }

  lemma BothCreated(c: Config, w: World)
    requires |w.created| == 2 && Person(c, w.created[0].1) && Person(c, w.created[1].1)
    ensures TwoPeople(c, w)
  {
  }

  /** A session lost while its process lives: two requests hold the critical section at once. */
  lemma LosingASessionBreaksIt(c: Config, a: BootstrapRequest, b: BootstrapRequest)
    requires Acceptable(c, a) && Acceptable(c, b) && EmailOf(a) != EmailOf(b)
    requires Person(c, EmailOf(a)) && Person(c, EmailOf(b))
    ensures TwoPeople(c, Run(c, Initial, Enter(0, 0, 0, a) + ([LoseSession(0)] +
              (Enter(1, 1, 1, b) + ([Create(0)] + ([Create(1)] + []))))))
  {
    var rest := Enter(1, 1, 1, b) + ([Create(0)] + ([Create(1)] + []));
    FirstEnters(c, a, [LoseSession(0)] + rest);
    RunStep(c, AtCreate(a, EmailOf(a)), LoseSession(0), rest);
    BothWrite(c, a, EmailOf(a), b);
  }

  lemma BothWrite(c: Config, a: BootstrapRequest, email: string, b: BootstrapRequest)
    requires Acceptable(c, b) && email != EmailOf(b) && Person(c, email) && Person(c, EmailOf(b))
    ensures TwoPeople(c, Run(c, Do(c, AtCreate(a, email), LoseSession(0)),
              Enter(1, 1, 1, b) + ([Create(0)] + ([Create(1)] + []))))
  {
    var w := Do(c, AtCreate(a, email), LoseSession(0));
    SecondEnters(c, w, b, [Create(0)] + ([Create(1)] + []));
    var w1 := Entered(w, 1, 1, 1, b);
    WritesNext(c, w1, 0, email, [Create(1)] + []);
    var w2 := Do(c, w1, Create(0));
    WritesNext(c, w2, 1, EmailOf(b), []);
    BothCreated(c, Do(c, w2, Create(1)));
  }

  /** A write that outlives its process lands after another replica's check. */
  lemma ALateWriteBreaksIt(c: Config, a: BootstrapRequest, b: BootstrapRequest)
    requires Acceptable(c, a) && Acceptable(c, b) && EmailOf(a) != EmailOf(b)
    requires Person(c, EmailOf(a)) && Person(c, EmailOf(b))
    ensures TwoPeople(c, Run(c, Initial, Enter(0, 0, 0, a) + ([Crash(0)] +
              (Enter(1, 1, 1, b) + ([Create(1)] + ([LandLate(EmailOf(a))] + []))))))
  {
    var email := EmailOf(a);
    var rest := Enter(1, 1, 1, b) + ([Create(1)] + ([LandLate(email)] + []));
    FirstEnters(c, a, [Crash(0)] + rest);
    RunStep(c, AtCreate(a, email), Crash(0), rest);
    CrashedWhileWriting(c, a, email);
    LateLands(c, Do(c, AtCreate(a, email), Crash(0)), email, b);
  }

  /** Nor need the process be gone: an insert that reports an error and commits after the unlock is as bad. */
  lemma AFailedWriteLandingLateBreaksIt(c: Config, a: BootstrapRequest, b: BootstrapRequest)
    requires Acceptable(c, a) && Acceptable(c, b) && EmailOf(a) != EmailOf(b)
    requires Person(c, EmailOf(a)) && Person(c, EmailOf(b))
    ensures TwoPeople(c, Run(c, Initial, Enter(0, 0, 0, a) + ([CreateFails(0, false)] + ([Unlock(0, true)] +
              (Enter(1, 1, 1, b) + ([Create(1)] + ([LandLate(EmailOf(a))] + [])))))))
  {
    var email := EmailOf(a);
    var rest := Enter(1, 1, 1, b) + ([Create(1)] + ([LandLate(email)] + []));
    FirstEnters(c, a, [CreateFails(0, false)] + ([Unlock(0, true)] + rest));
    FailedWhileWriting(c, a, email, rest);
    LateLands(c, AfterFailure(c, a, email), email, b);
  }

  /** The create reported an error, the lock was let go of, and the insert is still under way. */
  function AfterFailure(c: Config, body: BootstrapRequest, email: string): World {
    Do(c, Do(c, AtCreate(body, email), CreateFails(0, false)), Unlock(0, true))
  }

  lemma FailedWhileWriting(c: Config, body: BootstrapRequest, email: string, rest: seq<Step>)
    ensures Run(c, AtCreate(body, email), [CreateFails(0, false)] + ([Unlock(0, true)] + rest))
         == Run(c, AfterFailure(c, body, email), rest)
    ensures var w := AfterFailure(c, body, email);
            && w.users == [] && w.created == [] && w.lock.Free? && email in w.late
            && w.owner.Keys == {0} && w.requests.Keys == {0} && w.requests[0].phase == Returning(0, Failed)
  {
    RunStep(c, AtCreate(body, email), CreateFails(0, false), [Unlock(0, true)] + rest);
    RunStep(c, Do(c, AtCreate(body, email), CreateFails(0, false)), Unlock(0, true), rest);
  }

  lemma CrashedWhileWriting(c: Config, body: BootstrapRequest, email: string)
    ensures var w := Do(c, AtCreate(body, email), Crash(0));
            && w.users == [] && w.created == [] && w.lock.Free? && email in w.late
            && w.owner == map[] && w.requests == map[0 := Request(0, body, Gone)]
  {
    assert AtCreate(body, email).requests[0].phase.email == email;
  }

  lemma LateLands(c: Config, w: World, email: string, b: BootstrapRequest)
    requires Acceptable(c, b) && email != EmailOf(b) && Person(c, email) && Person(c, EmailOf(b))
    requires w.users == [] && w.created == [] && w.lock.Free? && email in w.late
    requires w.owner.Keys <= {0} && w.requests.Keys == {0}
    requires w.requests[0].phase.HasSession() ==> w.requests[0].phase.session == 0
    ensures TwoPeople(c, Run(c, w, Enter(1, 1, 1, b) + ([Create(1)] + ([LandLate(email)] + []))))
  {
    SecondEnters(c, w, b, [Create(1)] + ([LandLate(email)] + []));
    var w1 := Entered(w, 1, 1, 1, b);
    WritesNext(c, w1, 1, EmailOf(b), [LandLate(email)] + []);
    LandsNext(c, Do(c, w1, Create(1)), email);
  }

  lemma LandsNext(c: Config, w: World, email: string)
    requires email in w.late && email !in w.users && |w.created| == 1 && Person(c, email) && Person(c, w.created[0].1)
    ensures TwoPeople(c, Run(c, w, [LandLate(email)] + []))
  {
    RunStep(c, w, LandLate(email), []);
    BothCreated(c, Do(c, w, LandLate(email)));
  }

  /** Deleting the person opens the link again. */
  lemma DeletingThePersonReopensIt(c: Config, a: BootstrapRequest, b: BootstrapRequest)
    requires Acceptable(c, a) && Acceptable(c, b) && Person(c, EmailOf(a)) && Person(c, EmailOf(b))
    ensures TwoPeople(c, Run(c, Initial, Whole(a) + ([RemoveAccount(0)] +
              (Enter(1, 1, 1, b) + ([Create(1)] + [])))))
  {
    Removed(c, a, Enter(1, 1, 1, b) + ([Create(1)] + []));
    ReopenedWrites(c, Do(c, Finished(a), RemoveAccount(0)), EmailOf(a), b);
  }

  lemma Removed(c: Config, body: BootstrapRequest, rest: seq<Step>)
    requires Acceptable(c, body)
    ensures var w := Do(c, Finished(body), RemoveAccount(0));
            && Run(c, Initial, Whole(body) + ([RemoveAccount(0)] + rest)) == Run(c, w, rest)
            && w == Finished(body).(users := [])
  {
    WholeRun(c, body, [RemoveAccount(0)] + rest);
    RunStep(c, Finished(body), RemoveAccount(0), rest);
  }

  lemma ReopenedWrites(c: Config, w: World, email: string, b: BootstrapRequest)
    requires Acceptable(c, b) && Person(c, email) && Person(c, EmailOf(b))
    requires w.users == [] && w.created == [(0, email)] && w.lock.Free?
    requires w.owner.Keys <= {0} && w.requests.Keys == {0} && w.requests[0].phase.Answered?
    ensures TwoPeople(c, Run(c, w, Enter(1, 1, 1, b) + ([Create(1)] + [])))
  {
    SecondEnters(c, w, b, [Create(1)] + []);
    var entered := Entered(w, 1, 1, 1, b);
    WritesNext(c, entered, 1, EmailOf(b), []);
    BothCreated(c, Do(c, entered, Create(1)));
  }
}
