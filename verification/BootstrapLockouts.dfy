/**
 * A person with an account and no credential. The two writes of a bootstrap are not one, and once the
 * first has landed the link is closed; this is exactly when the second one never follows.
 */
module BootstrapLockouts {
  import opened Common
  import opened Identity
  import opened Bootstrap
  import opened BootstrapRuns

  predicate IsLinking(w: World, r: nat, email: string) {
    r in w.requests && w.requests[r].phase.Linking? && w.requests[r].phase.email == email
  }

  /** The request's row is there, nothing can sign in to it, and the request is not about to change that. */
  predicate Locked(w: World, r: nat, email: string) {
    (r, email) in w.created && email !in w.credentials && !IsLinking(w, r, email)
  }

  /** The three ways to lose the second write: the process dies, the write fails, or the first one seemed to. */
  predicate Loses(w: World, step: Step, r: nat, email: string) {
    match step
    case Crash(process) => IsLinking(w, r, email) && w.requests[r].process == process
    case LinkFails(q, landed) => q == r && !landed && IsLinking(w, r, email)
    case CreateFails(q, landed) =>
      && q == r && landed && email !in w.users
      && r in w.requests && w.requests[r].phase.Creating? && w.requests[r].phase.email == email
    case _ => false
  }

  ghost predicate SomeStepLoses(c: Config, w: World, steps: seq<Step>, r: nat, email: string)
    decreases |steps|
  {
    steps != [] && (Loses(w, steps[0], r, email) || SomeStepLoses(c, Do(c, w, steps[0]), steps[1..], r, email))
  }

  /** A person's credential is of a row bootstrap wrote, and comes only with the end of its link. */
  ghost predicate CredentialsFollow(c: Config, w: World, email: string) {
    && (email in w.credentials ==> exists q :: (q, email) in w.created)
    && forall q :: IsLinking(w, q, email) ==> email !in w.credentials
  }

  lemma NewRow(c: Config, w: World, step: Step, r: nat, email: string)
    requires Ordinary(c, w, step) && (r, email) in Do(c, w, step).created && (r, email) !in w.created
    ensures r in w.requests && w.requests[r].phase.Creating? && w.requests[r].phase.email == email
    ensures Loses(w, step, r, email) || IsLinking(Do(c, w, step), r, email)
    ensures Do(c, w, step).credentials == w.credentials
    ensures Loses(w, step, r, email) ==> !IsLinking(Do(c, w, step), r, email)
  {
  }

  lemma NewCredential(c: Config, w: World, step: Step, email: string) returns (q: nat)
    requires email in Do(c, w, step).credentials && email !in w.credentials
    ensures IsLinking(w, q, email) && !IsLinking(Do(c, w, step), q, email) && Do(c, w, step).created == w.created
  {
    q := step.r;
  }

  lemma StartsLinking(c: Config, w: World, step: Step, q: nat, email: string)
    requires IsLinking(Do(c, w, step), q, email) && !IsLinking(w, q, email)
    ensures q in w.requests && w.requests[q].phase.Creating? && Do(c, w, step).credentials == w.credentials
  {
  }

  lemma StopsLinking(c: Config, w: World, step: Step, r: nat, email: string)
    requires IsLinking(w, r, email) && !IsLinking(Do(c, w, step), r, email)
    ensures Loses(w, step, r, email) || email in Do(c, w, step).credentials
  {
  }

  lemma LossIsFinal(c: Config, w: World, step: Step, r: nat, email: string)
    requires Loses(w, step, r, email) && ((r, email) in w.created || !IsLinking(w, r, email))
    ensures (r, email) in Do(c, w, step).created && !IsLinking(Do(c, w, step), r, email)
    ensures Do(c, w, step).credentials == w.credentials
  {
  }

  /** A person's row is one request's alone, and nobody is writing another. */
  lemma PersonsRowIsOnes(c: Config, w: World, q: nat, r: nat, email: string)
    requires OnePerson(c, w) && Person(c, email) && (q, email) in w.created && (r, email) in w.created
    ensures q == r
  {
  }

  lemma NoCredentialWhileCreating(c: Config, w: World, r: nat, email: string)
    requires OnePerson(c, w) && Person(c, email) && CredentialsFollow(c, w, email)
    requires r in w.requests && w.requests[r].phase.Creating?
    ensures email !in w.credentials && forall q :: (q, email) !in w.created
  {
    assert NoPersonCreated(c, w.created);
  }

  lemma StepKeepsCredentials(c: Config, w: World, step: Step, email: string)
    requires Inv(c, w) && Ordinary(c, w, step) && Person(c, email) && CredentialsFollow(c, w, email)
    ensures CredentialsFollow(c, Do(c, w, step), email)
  {
    var w' := Do(c, w, step);
    HistoryGrows(c, w, step);
    if email in w'.credentials && email !in w.credentials {
      var q := NewCredential(c, w, step, email);
      assert AnswersAreKept(w, q);
      assert (q, email) in w'.created;
    } else if email in w'.credentials {
      var q :| (q, email) in w.created;
      assert (q, email) in w'.created;
    }
    forall q | IsLinking(w', q, email) ensures email !in w'.credentials {
      if !IsLinking(w, q, email) {
        StartsLinking(c, w, step, q, email);
        NoCredentialWhileCreating(c, w, q, email);
      } else if email in w'.credentials {
        var p := NewCredential(c, w, step, email);
        CriticalIsExclusive(w, p, q);
      }
    }
  }

  /** One step locks a person out exactly by losing the second write, and nothing undoes it. */
  lemma StepLocksExactlyWhenItLoses(c: Config, w: World, step: Step, r: nat, email: string)
    requires Inv(c, w) && Ordinary(c, w, step) && Person(c, email) && CredentialsFollow(c, w, email)
    ensures Locked(Do(c, w, step), r, email) <==> Locked(w, r, email) || Loses(w, step, r, email)
  {
    var w' := Do(c, w, step);
    HistoryGrows(c, w, step);
    assert AnswersAreKept(w, r);
    if Loses(w, step, r, email) {
      LossIsFinal(c, w, step, r, email);
      if !IsLinking(w, r, email) {
        NoCredentialWhileCreating(c, w, r, email);
      }
    } else if Locked(w, r, email) {
      StaysLocked(c, w, step, r, email);
    } else if Locked(w', r, email) {
      if (r, email) !in w.created {
        NewRow(c, w, step, r, email);
      } else if IsLinking(w, r, email) {
        StopsLinking(c, w, step, r, email);
      }
    }
  }

  lemma StaysLocked(c: Config, w: World, step: Step, r: nat, email: string)
    requires Inv(c, w) && Ordinary(c, w, step) && Person(c, email) && CredentialsFollow(c, w, email)
    requires Locked(w, r, email)
    ensures Locked(Do(c, w, step), r, email)
  {
    var w' := Do(c, w, step);
    HistoryGrows(c, w, step);
    assert (r, email) in w'.created;
    if email in w'.credentials {
      var q := NewCredential(c, w, step, email);
      assert AnswersAreKept(w, q);
      PersonsRowIsOnes(c, w, q, r, email);
    }
    if IsLinking(w', r, email) {
      StartsLinking(c, w, step, r, email);
      NoCredentialWhileCreating(c, w, r, email);
    }
  }

  lemma {:induction false} RunLocksExactlyWhenAStepLoses(c: Config, w: World, steps: seq<Step>, r: nat, email: string)
    requires c.serviceAccountEmail != "" && Inv(c, w) && OrdinaryRun(c, w, steps)
    requires Person(c, email) && CredentialsFollow(c, w, email)
    ensures Locked(Run(c, w, steps), r, email) <==> Locked(w, r, email) || SomeStepLoses(c, w, steps, r, email)
    decreases |steps|
  {
    if steps != [] {
      var w' := Do(c, w, steps[0]);
      assert Run(c, w, steps) == Run(c, w', steps[1..]);
      InvStep(c, w, steps[0]);
      StepKeepsCredentials(c, w, steps[0], email);
      StepLocksExactlyWhenItLoses(c, w, steps[0], r, email);
      RunLocksExactlyWhenAStepLoses(c, w', steps[1..], r, email);
    }
  }

  lemma InvStep(c: Config, w: World, step: Step)
    requires c.serviceAccountEmail != "" && Inv(c, w) && Ordinary(c, w, step)
    ensures Inv(c, Do(c, w, step))
  {
    RunsKeepInv(c, w, [step]);
    assert Run(c, w, [step]) == Do(c, w, step) by {
      assert [step][1..] == [];
    }
  }

  /**
   * Over every run, a person whose account bootstrap wrote is left without a credential, and with no
   * request still at it, exactly when the run has a crash between the two writes, a second write
   * that failed, or a first write that landed and reported an error.
   */
  lemma LockedOutExactlyWhen(c: Config, table: seq<string>, steps: seq<Step>, r: nat, email: string)
    requires c.serviceAccountEmail != "" && OrdinaryRun(c, StartingWith(table), steps) && Person(c, email)
    ensures Locked(Run(c, StartingWith(table), steps), r, email) <==>
            SomeStepLoses(c, StartingWith(table), steps, r, email)
  {
    RunLocksExactlyWhenAStepLoses(c, StartingWith(table), steps, r, email);
  }

  // ---- One run for each of the three ----

  /** From a world like this no request, however it is interleaved, gives anybody a credential. */
  predicate LockedOut(c: Config, w: World, email: string) {
    && w.users == [email] && w.credentials == {} && w.created == [(0, email)]
    && forall r :: r in w.requests ==> !w.requests[r].phase.Creating? && !w.requests[r].phase.Linking?
  }

  lemma LockedOutForGood(c: Config, w: World, email: string, steps: seq<Step>)
    requires c.serviceAccountEmail != "" && Person(c, email) && LockedOut(c, w, email) && OrdinaryRun(c, w, steps)
    ensures Run(c, w, steps).credentials == {} && Run(c, w, steps).created == [(0, email)]
  {
    assert email in w.users;
    ClosedStaysClosed(c, w, steps);
  }

  lemma CrashBetweenWritesLocksOut(c: Config, body: BootstrapRequest)
    requires Acceptable(c, body)
    ensures LockedOut(c, Run(c, Initial, Enter(0, 0, 0, body) + ([Create(0)] + ([Crash(0)] + []))), EmailOf(body))
  {
    var email := EmailOf(body);
    FirstEnters(c, body, [Create(0)] + ([Crash(0)] + []));
    RunStep(c, AtCreate(body, email), Create(0), [Crash(0)] + []);
    CreateStep(c, body, email);
    RunStep(c, AtLink(body, email), Crash(0), []);
    assert Do(c, AtLink(body, email), Crash(0)).requests == map[0 := Request(0, body, Gone)];
  }

  lemma FailedLinkLocksOut(c: Config, body: BootstrapRequest)
    requires Acceptable(c, body)
    ensures LockedOut(c, Run(c, Initial, Enter(0, 0, 0, body) + ([Create(0)] + ([LinkFails(0, false)] + []))),
                      EmailOf(body))
  {
    var email := EmailOf(body);
    FirstEnters(c, body, [Create(0)] + ([LinkFails(0, false)] + []));
    RunStep(c, AtCreate(body, email), Create(0), [LinkFails(0, false)] + []);
    CreateStep(c, body, email);
    RunStep(c, AtLink(body, email), LinkFails(0, false), []);
  }

  lemma LandedCreateThatFailsLocksOut(c: Config, body: BootstrapRequest)
    requires Acceptable(c, body)
    ensures LockedOut(c, Run(c, Initial, Enter(0, 0, 0, body) + ([CreateFails(0, true)] + [])), EmailOf(body))
  {
    var email := EmailOf(body);
    FirstEnters(c, body, [CreateFails(0, true)] + []);
    RunStep(c, AtCreate(body, email), CreateFails(0, true), []);
  }
}
