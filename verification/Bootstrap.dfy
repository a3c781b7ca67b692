/**
 * The first administrator: check-then-create under a session-level advisory lock, by any number of
 * requests on any number of replicas. A run is any sequence of the steps below; a step that is not
 * enabled changes nothing. Failed statements, failed unlocks that leave a pooled session holding
 * the lock, connections closed while idle and crashes of a whole replica are steps like any other.
 */
module Bootstrap {
  import opened Common
  import opened Identity

  datatype Config = Config(
    bootstrapToken: Option<string>, serviceAccountEmail: string, minPassword: nat, maxPassword: nat)

  datatype BootstrapRequest = BootstrapRequest(token: Option<string>, email: string, name: string, password: string)

  datatype Answer = Created(email: string) | Refused(status: nat) | Failed

  datatype Phase =
    | Received
    | Connecting
    | Locking(session: nat)
    | Checking(session: nat)
    | Creating(session: nat, email: string)
    | Linking(session: nat, email: string)
    | Unlocking(session: nat, answer: Answer)
    | Returning(session: nat, answer: Answer)
    | Answered(answer: Answer)
    | Gone
  {
    predicate HasSession() { !Received? && !Connecting? && !Answered? && !Gone? }

    /** Between the lock being granted and the work being over. */
    predicate Critical() { Checking? || Creating? || Linking? }

    predicate HasAnswer() { Unlocking? || Returning? || Answered? }
  }

  datatype Request = Request(process: nat, body: BootstrapRequest, phase: Phase)

  /** A session may hold the lock several times over, and then has to let it go as often. */
  datatype Lock = Free | Held(session: nat, depth: nat)

  /**
   * `users` is the account table, oldest first, and `credentials` the addresses with a password.
   * `created` is history: which request wrote which row. `late` are the writes given up on, by a crash
   * or by an error, that the database may yet commit.
   */
  datatype World = World(
    users: seq<string>, credentials: set<string>, created: seq<(nat, string)>, late: set<string>,
    lock: Lock, owner: map<nat, nat>, requests: map<nat, Request>)

  datatype Step =
    | Arrive(r: nat, process: nat, body: BootstrapRequest)
    | Authorize(r: nat)
    | Connect(r: nat, s: nat)
    | ConnectFails(r: nat)
    | LockGranted(r: nat)
    | LockFails(r: nat, granted: bool)
    | Check(r: nat)
    | CheckFails(r: nat)
    | Create(r: nat)
    | CreateFails(r: nat, landed: bool)
    | Link(r: nat)
    | LinkFails(r: nat, landed: bool)
    | Unlock(r: nat, effective: bool)
    | Return(r: nat)
    | CloseIdle(s: nat)
    | Crash(process: nat)
    | AddAccount(email: string)
    | RemoveAccount(at: nat)
    | LoseSession(s: nat)
    | LandLate(email: string)

  const Initial := World([], {}, [], {}, Free, map[], map[])

  /** Both sides of the comparison have to be there; an absent or empty token matches nothing. */
  predicate TokenMatches(expected: Option<string>, provided: Option<string>) {
    expected.Some? && provided.Some? && expected.value != "" && expected.value == provided.value
  }

  /** The refusals of the half under the lock, after the check, in order. */
  function Validate(c: Config, body: BootstrapRequest): Option<nat> {
    if '@' !in NormalizeEmail(body.email) then Some(400)
    else if TrimEnd(TrimStart(body.name)) == "" then Some(400)
    else if |body.password| < c.minPassword || |body.password| > c.maxPassword then Some(400)
    else None
  }

  predicate IsBootstrapped(c: Config, users: seq<string>) {
    |ListPeople(c.serviceAccountEmail, users)| > 0
  }

  predicate InUse(w: World, s: nat) {
    exists r :: r in w.requests && w.requests[r].phase.HasSession() && w.requests[r].phase.session == s
  }

  predicate CanLock(w: World, s: nat) {
    w.lock.Free? || w.lock.session == s
  }

  function Acquire(lock: Lock, s: nat): Lock {
    Held(s, 1 + if lock.Held? then lock.depth else 0)
  }

  function Release(lock: Lock, s: nat): Lock {
    if lock.Held? && lock.session == s then (if lock.depth > 1 then Held(s, lock.depth - 1) else Free) else lock
  }

  /** A session that ends lets go of everything it holds. */
  function End(lock: Lock, s: nat): Lock {
    if lock.Held? && lock.session == s then Free else lock
  }

  function Move(w: World, r: nat, phase: Phase): World
    requires r in w.requests
  {
    w.(requests := w.requests[r := w.requests[r].(phase := phase)])
  }

  /** Addresses are unique in the table, so a second row of one is refused by the database. */
  function InsertCreated(w: World, r: nat, email: string): World {
    w.(users := w.users + [email], created := w.created + [(r, email)])
  }

  function DoArrive(w: World, r: nat, process: nat, body: BootstrapRequest): World {
    if r in w.requests then w else w.(requests := w.requests[r := Request(process, body, Received)])
  }

  function DoConnect(w: World, r: nat, s: nat): World {
    if r in w.requests && w.requests[r].phase.Connecting? && !InUse(w, s) &&
       (s in w.owner ==> w.owner[s] == w.requests[r].process)
    then Move(w, r, Locking(s)).(owner := w.owner[s := w.requests[r].process])
    else w
  }

  function DoLock(w: World, r: nat): World {
    if r in w.requests && w.requests[r].phase.Locking? && CanLock(w, w.requests[r].phase.session)
    then
      var s := w.requests[r].phase.session;
      Move(w, r, Checking(s)).(lock := Acquire(w.lock, s))
    else w
  }

  function DoLockFails(w: World, r: nat, granted: bool): World {
    if r in w.requests && w.requests[r].phase.Locking?
    then
      var s := w.requests[r].phase.session;
      Move(w, r, Unlocking(s, Failed)).(lock := if granted && CanLock(w, s) then Acquire(w.lock, s) else w.lock)
    else w
  }

  function DoCheck(c: Config, w: World, r: nat): World {
    if r in w.requests && w.requests[r].phase.Checking?
    then
      var s, body := w.requests[r].phase.session, w.requests[r].body;
      var refusal := if IsBootstrapped(c, w.users) then Some(410) else Validate(c, body);
      Move(w, r, if refusal.Some? then Unlocking(s, Refused(refusal.value))
                 else Creating(s, NormalizeEmail(body.email)))
    else w
  }

  function DoCreate(w: World, r: nat): World {
    if r in w.requests && w.requests[r].phase.Creating?
    then
      var s, email := w.requests[r].phase.session, w.requests[r].phase.email;
      if email in w.users then Move(w, r, Unlocking(s, Failed))
      else Move(InsertCreated(w, r, email), r, Linking(s, email))
    else w
  }

  function DoCreateFails(w: World, r: nat, landed: bool): World {
    if r in w.requests && w.requests[r].phase.Creating?
    then
      var s, email := w.requests[r].phase.session, w.requests[r].phase.email;
      Move(if landed then (if email in w.users then w else InsertCreated(w, r, email))
           else w.(late := w.late + {email}), r, Unlocking(s, Failed))
    else w
  }

  function DoLink(w: World, r: nat, landed: bool, fails: bool): World {
    if r in w.requests && w.requests[r].phase.Linking?
    then
      var s, email := w.requests[r].phase.session, w.requests[r].phase.email;
      Move(w, r, Unlocking(s, if fails then Failed else Created(email)))
        .(credentials := if landed then w.credentials + {email} else w.credentials)
    else w
  }

  function DoUnlock(w: World, r: nat, effective: bool): World {
    if r in w.requests && w.requests[r].phase.Unlocking?
    then
      var s := w.requests[r].phase.session;
      Move(w, r, Returning(s, w.requests[r].phase.answer)).(lock := if effective then Release(w.lock, s) else w.lock)
    else w
  }

  function CrashedRequest(request: Request, process: nat): Request {
    if request.process == process && !request.phase.Answered? then request.(phase := Gone) else request
  }

  function DoCrash(w: World, process: nat): World {
    World(
      w.users, w.credentials, w.created,
      w.late + (set r | r in w.requests && w.requests[r].process == process && w.requests[r].phase.Creating?
                :: w.requests[r].phase.email),
      if w.lock.Held? && w.lock.session in w.owner && w.owner[w.lock.session] == process then Free else w.lock,
      map s | s in w.owner && w.owner[s] != process :: w.owner[s],
      map r | r in w.requests :: CrashedRequest(w.requests[r], process))
  }

  function Do(c: Config, w: World, step: Step): World {
    match step
    case Arrive(r, process, body) => DoArrive(w, r, process, body)
    case Authorize(r) =>
      if r in w.requests && w.requests[r].phase.Received?
      then Move(w, r,
        if c.bootstrapToken in {None, Some("")} then Answered(Refused(404))
        else if !TokenMatches(c.bootstrapToken, w.requests[r].body.token) then Answered(Refused(401))
        else Connecting)
      else w
    case Connect(r, s) => DoConnect(w, r, s)
    case ConnectFails(r) =>
      if r in w.requests && w.requests[r].phase.Connecting? then Move(w, r, Answered(Failed)) else w
    case LockGranted(r) => DoLock(w, r)
    case LockFails(r, granted) => DoLockFails(w, r, granted)
    case Check(r) => DoCheck(c, w, r)
    case CheckFails(r) =>
      if r in w.requests && w.requests[r].phase.Checking?
      then Move(w, r, Unlocking(w.requests[r].phase.session, Failed)) else w
    case Create(r) => DoCreate(w, r)
    case CreateFails(r, landed) => DoCreateFails(w, r, landed)
    case Link(r) => DoLink(w, r, true, false)
    case LinkFails(r, landed) => DoLink(w, r, landed, true)
    case Unlock(r, effective) => DoUnlock(w, r, effective)
    case Return(r) =>
      if r in w.requests && w.requests[r].phase.Returning?
      then Move(w, r, Answered(w.requests[r].phase.answer)) else w
    case CloseIdle(s) => if InUse(w, s) then w else w.(owner := w.owner - {s}, lock := End(w.lock, s))
    case Crash(process) => DoCrash(w, process)
    case AddAccount(email) => if email in w.users then w else w.(users := w.users + [email])
    case RemoveAccount(at) => if at < |w.users| then w.(users := w.users[..at] + w.users[at + 1..]) else w
    case LoseSession(s) => w.(owner := w.owner - {s}, lock := End(w.lock, s))
    case LandLate(email) =>
      if email in w.late && email !in w.users
      then w.(users := w.users + [email], created := w.created + [(0, email)], late := w.late - {email}) else w
  }

  function Run(c: Config, w: World, steps: seq<Step>): World
    decreases |steps|
  {
    if steps == [] then w else Run(c, Do(c, w, steps[0]), steps[1..])
  }

  predicate Person(c: Config, email: string) {
    IsPerson(c.serviceAccountEmail, email)
  }

  /**
   * What the guarantee rests on: a session is lost only when idle or with its process, a write has
   * landed by the time its request is over or its process gone, or it never will, and people's
   * accounts are not deleted.
   */
  predicate Ordinary(c: Config, w: World, step: Step) {
    && !step.LoseSession? && !step.LandLate?
    && (step.RemoveAccount? && step.at < |w.users| ==> !Person(c, w.users[step.at]))
  }

  predicate OrdinaryRun(c: Config, w: World, steps: seq<Step>)
    decreases |steps|
  {
    steps == [] || (Ordinary(c, w, steps[0]) && OrdinaryRun(c, Do(c, w, steps[0]), steps[1..]))
  }

  // ---- What every step keeps ----

  predicate Live(w: World, r: nat) {
    r in w.requests && w.requests[r].phase.HasSession()
  }

  /** A request's session is its process's, and a request in the critical section holds the lock by it. */
  ghost predicate SessionsAgree(w: World, r: nat) {
    Live(w, r) ==>
      var request := w.requests[r];
      && request.phase.session in w.owner && w.owner[request.phase.session] == request.process
      && (request.phase.Critical() ==> w.lock.Held? && w.lock.session == request.phase.session)
  }

  ghost predicate NotShared(w: World, q: nat, r: nat) {
    q != r && Live(w, q) && Live(w, r) ==> w.requests[q].phase.session != w.requests[r].phase.session
  }

  ghost predicate Exclusive(w: World) {
    && (forall r :: SessionsAgree(w, r))
    && (forall q, r :: NotShared(w, q, r))
  }

  /** A person bootstrap created is still there, there is one at most, and nobody is about to add another. */
  ghost predicate OnePerson(c: Config, w: World) {
    && (forall i :: 0 <= i < |w.created| && Person(c, w.created[i].1) ==> w.created[i].1 in w.users)
    && (forall i, j :: 0 <= i < j < |w.created| ==> !(Person(c, w.created[i].1) && Person(c, w.created[j].1)))
    && (forall r :: r in w.requests && w.requests[r].phase.Creating? ==> NoPersonCreated(c, w.created))
  }

  ghost predicate NoPersonCreated(c: Config, created: seq<(nat, string)>) {
    forall i :: 0 <= i < |created| ==> !Person(c, created[i].1)
  }

  /** An account is answered for only by the request that wrote it, and only once it can sign in. */
  ghost predicate AnswersAreKept(w: World, r: nat) {
    r in w.requests ==>
      var phase := w.requests[r].phase;
      && (phase.Linking? ==> (r, phase.email) in w.created)
      && (phase.HasAnswer() && phase.answer.Created? ==>
            (r, phase.answer.email) in w.created && phase.answer.email in w.credentials)
  }

  ghost predicate Inv(c: Config, w: World) {
    Exclusive(w) && OnePerson(c, w) && forall r :: AnswersAreKept(w, r)
  }

  lemma PeopleOfTable(c: Config, users: seq<string>)
    requires c.serviceAccountEmail != ""
    ensures IsBootstrapped(c, users) <==> exists email :: email in users && Person(c, email)
  {
    ListPeopleIsThePeople(c.serviceAccountEmail, users);
    FilterElements(users, email => IsPerson(c.serviceAccountEmail, email));
    var people := People(c.serviceAccountEmail, users);
    assert |people| > 0 ==> people[0] in people;
  }

  lemma {:induction false} FilterElements(table: seq<string>, p: string -> bool)
    ensures forall email :: email in Filter(table, p) <==> email in table && p(email)
  {
    if table != [] {
      var front, last := table[..|table| - 1], table[|table| - 1];
      FilterElements(front, p);
      assert table == front + [last];
    }
  }

  // Mutual exclusion, step by step.

  /** At most one request changes, it keeps its process, and every session in use keeps its owner. */
  ghost predicate OneMoves(w: World, w': World, r: nat) {
    && (forall q :: q != r ==> (q in w'.requests <==> q in w.requests))
    && (forall q :: q != r && q in w.requests ==> w'.requests[q] == w.requests[q])
    && (r in w.requests ==> r in w'.requests && w'.requests[r].process == w.requests[r].process)
  }

  /** It had this session before, or nobody else has it. */
  ghost predicate SessionIsOwn(w: World, w': World, r: nat) {
    Live(w', r) ==>
      var s := w'.requests[r].phase.session;
      && s in w'.owner && w'.owner[s] == w'.requests[r].process
      && ((Live(w, r) && w.requests[r].phase.session == s) || !InUse(w, s))
  }

  /** What may happen to the lock and to other sessions, seen from a request that did not move. */
  ghost predicate Undisturbed(w: World, w': World, q: nat) {
    Live(w, q) ==>
      var s := w.requests[q].phase.session;
      && (s in w.owner ==> s in w'.owner && w'.owner[s] == w.owner[s])
      && (w.lock.Held? && w.lock.session == s ==> w'.lock.Held? && w'.lock.session == s)
  }

  /** A request enters the critical section only by being granted the lock. */
  ghost predicate EntersByLock(w: World, w': World, r: nat) {
    Live(w', r) && w'.requests[r].phase.Critical() ==>
      || (w'.lock.Held? && w'.lock.session == w'.requests[r].phase.session)
      || (Live(w, r) && w.requests[r].phase.Critical() && w'.lock == w.lock
          && w'.requests[r].phase.session == w.requests[r].phase.session)
  }

  lemma MoveKeepsExclusive(w: World, w': World, r: nat)
    requires Exclusive(w)
    requires OneMoves(w, w', r) && SessionIsOwn(w, w', r) && EntersByLock(w, w', r)
    requires forall q :: q != r ==> Undisturbed(w, w', q)
    ensures Exclusive(w')
  {
    forall q ensures SessionsAgree(w', q) {
      assert SessionsAgree(w, q);
      assert q != r ==> Undisturbed(w, w', q);
    }
    forall p, q ensures NotShared(w', p, q) {
      assert NotShared(w, p, q);
      if p != q && Live(w', p) && Live(w', q) {
        NotSharedWithMover(w, w', r, p, q);
      }
    }
  }

  lemma NotSharedWithMover(w: World, w': World, r: nat, p: nat, q: nat)
    requires p != q && Live(w', p) && Live(w', q)
    requires OneMoves(w, w', r) && SessionIsOwn(w, w', r) && NotShared(w, p, q)
    ensures w'.requests[p].phase.session != w'.requests[q].phase.session
  {
    assert p != r ==> Live(w, p) && InUse(w, w.requests[p].phase.session);
    assert q != r ==> Live(w, q) && InUse(w, w.requests[q].phase.session);
  }

  lemma OtherSessionsDiffer(w: World, r: nat)
    requires Exclusive(w) && Live(w, r)
    ensures forall q :: q != r && Live(w, q) ==> w.requests[q].phase.session != w.requests[r].phase.session
    ensures forall q :: Live(w, q) ==> w.requests[q].phase.session in w.owner
  {
    forall q | q != r && Live(w, q) ensures w.requests[q].phase.session != w.requests[r].phase.session {
      assert NotShared(w, q, r);
    }
    forall q | Live(w, q) ensures w.requests[q].phase.session in w.owner {
      assert SessionsAgree(w, q);
    }
  }

  lemma LockKeepsExclusive(w: World, r: nat, w': World)
    requires Exclusive(w) && r in w.requests && w.requests[r].phase.Locking?
    requires OneMoves(w, w', r) && w'.owner == w.owner
    requires var s := w.requests[r].phase.session;
      && w'.requests[r].phase in {Checking(s), Unlocking(s, Failed)}
      && (w'.requests[r].phase.Checking? ==> CanLock(w, s) && w'.lock == Acquire(w.lock, s))
      && (w'.lock == w.lock || (CanLock(w, s) && w'.lock == Acquire(w.lock, s)))
    ensures Exclusive(w')
  {
    assert SessionsAgree(w, r);
    OtherSessionsDiffer(w, r);
    forall q | q != r ensures Undisturbed(w, w', q) {
      assert SessionsAgree(w, q);
    }
    MoveKeepsExclusive(w, w', r);
  }

  lemma UnlockKeepsExclusive(w: World, r: nat, effective: bool)
    requires Exclusive(w)
    ensures Exclusive(DoUnlock(w, r, effective))
  {
    if r in w.requests && w.requests[r].phase.Unlocking? {
      assert SessionsAgree(w, r);
      OtherSessionsDiffer(w, r);
      forall q | q != r ensures Undisturbed(w, DoUnlock(w, r, effective), q) {
        assert SessionsAgree(w, q);
      }
      MoveKeepsExclusive(w, DoUnlock(w, r, effective), r);
    }
  }

  lemma ConnectKeepsExclusive(w: World, r: nat, s: nat)
    requires Exclusive(w)
    ensures Exclusive(DoConnect(w, r, s))
  {
    var w' := DoConnect(w, r, s);
    if w' != w {
      forall q | q != r ensures Undisturbed(w, w', q) {
        assert SessionsAgree(w, q);
        assert Live(w, q) ==> InUse(w, w.requests[q].phase.session);
      }
      MoveKeepsExclusive(w, w', r);
    }
  }

  lemma CloseIdleKeepsExclusive(c: Config, w: World, s: nat)
    requires Exclusive(w)
    ensures Exclusive(Do(c, w, CloseIdle(s)))
  {
    var w' := Do(c, w, CloseIdle(s));
    if !InUse(w, s) {
      forall q ensures SessionsAgree(w', q) {
        assert SessionsAgree(w, q);
        assert Live(w, q) ==> InUse(w, w.requests[q].phase.session);
      }
      forall p, q ensures NotShared(w', p, q) {
        assert NotShared(w, p, q);
      }
    }
  }

  lemma CrashKeepsExclusive(w: World, process: nat)
    requires Exclusive(w)
    ensures Exclusive(DoCrash(w, process))
  {
    var w' := DoCrash(w, process);
    forall q ensures SessionsAgree(w', q) {
      assert SessionsAgree(w, q);
      assert Live(w', q) ==> Live(w, q) && w'.requests[q] == w.requests[q] && w.requests[q].process != process;
    }
    forall p, q ensures NotShared(w', p, q) {
      assert NotShared(w, p, q);
      assert Live(w', p) ==> Live(w, p) && w'.requests[p] == w.requests[p];
      assert Live(w', q) ==> Live(w, q) && w'.requests[q] == w.requests[q];
    }
  }

  /** Steps of a request that touch neither the lock nor a session. */
  predicate IsWork(step: Step) {
    || step.Authorize? || step.ConnectFails? || step.Check? || step.CheckFails? || step.Create?
    || step.CreateFails? || step.Link? || step.LinkFails? || step.Return?
  }

  predicate OnlyLeaves(w: World, w': World, r: nat) {
    Live(w', r) ==>
      && Live(w, r) && w'.requests[r].phase.session == w.requests[r].phase.session
      && (w'.requests[r].phase.Critical() ==> w.requests[r].phase.Critical())
  }

  lemma WorkIsQuiet(c: Config, w: World, step: Step)
    requires IsWork(step)
    ensures var r, w' := step.r, Do(c, w, step);
            && w'.lock == w.lock && w'.owner == w.owner && OneMoves(w, w', r)
            && (w' != w ==> r in w.requests)
            && OnlyLeaves(w, w', r)
  {
  }

  lemma StepKeepsExclusive(c: Config, w: World, step: Step)
    requires Exclusive(w) && Ordinary(c, w, step)
    ensures Exclusive(Do(c, w, step))
  {
    var w' := Do(c, w, step);
    if IsWork(step) {
      WorkIsQuiet(c, w, step);
      if w' != w {
        WorkKeepsExclusive(w, w', step.r);
      }
    } else {
      match step {
        case Connect(r, s) => ConnectKeepsExclusive(w, r, s);
        case Unlock(r, effective) => UnlockKeepsExclusive(w, r, effective);
        case CloseIdle(s) => CloseIdleKeepsExclusive(c, w, s);
        case Crash(process) => CrashKeepsExclusive(w, process);
        case LockGranted(r) => if w' != w { LockKeepsExclusive(w, r, w'); }
        case LockFails(r, _) => if w' != w { LockKeepsExclusive(w, r, w'); }
        case Arrive(r, _, _) => ArriveKeepsExclusive(w, w', r);
        case AddAccount(_) => TableKeepsExclusive(w, w');
        case RemoveAccount(_) => TableKeepsExclusive(w, w');
        case _ =>
      }
    }
  }

  lemma ArriveKeepsExclusive(w: World, w': World, r: nat)
    requires Exclusive(w) && OneMoves(w, w', r) && w'.owner == w.owner && w'.lock == w.lock
    requires Live(w', r) ==> Live(w, r) && w'.requests[r] == w.requests[r]
    ensures Exclusive(w')
  {
    forall q ensures SessionsAgree(w', q) {
      assert SessionsAgree(w, q);
    }
    forall p, q ensures NotShared(w', p, q) {
      assert NotShared(w, p, q);
    }
  }

  lemma TableKeepsExclusive(w: World, w': World)
    requires Exclusive(w) && w'.requests == w.requests && w'.owner == w.owner && w'.lock == w.lock
    ensures Exclusive(w')
  {
    forall q ensures SessionsAgree(w', q) {
      assert SessionsAgree(w, q);
    }
    forall p, q ensures NotShared(w', p, q) {
      assert NotShared(w, p, q);
    }
  }

  lemma WorkKeepsExclusive(w: World, w': World, r: nat)
    requires Exclusive(w) && OneMoves(w, w', r) && w'.owner == w.owner && w'.lock == w.lock && r in w.requests
    requires OnlyLeaves(w, w', r)
    ensures Exclusive(w')
  {
    assert SessionsAgree(w, r);
    forall q | q != r ensures Undisturbed(w, w', q) {
      assert SessionsAgree(w, q);
    }
    MoveKeepsExclusive(w, w', r);
  }

  /** Two requests are never in the critical section together. */
  lemma CriticalIsExclusive(w: World, q: nat, r: nat)
    requires Exclusive(w) && q in w.requests && r in w.requests
    requires w.requests[q].phase.Critical() && w.requests[r].phase.Critical()
    ensures q == r
  {
    assert SessionsAgree(w, q) && SessionsAgree(w, r) && NotShared(w, q, r);
  }
}
