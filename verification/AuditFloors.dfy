/**
 * The floor: the last number a replica took and did not put back, under which it takes the head for
 * wound back and refuses to append. When that refusal can come with nobody interfering, and when not.
 */
module AuditFloors {
  import opened Common
  import opened AuditEncoding
  import opened AuditChain
  import opened AuditHead
  import opened AuditRuns

  /** A replica that may still put its number back: one whose version is stale never will. */
  predicate MayReturn(w: World, q: nat) {
    At(w, q).phase.Inserting? || At(w, q).phase.Releasing? || CanPutBack(w, q)
  }

  /** A replica's floor is in the chain, and nobody else can take that number off it. */
  ghost predicate FloorStands(w: World, p: nat, q: nat) {
    && At(w, p).floor <= w.head.sequence
    && (At(w, p).phase.Holds() ==> At(w, p).floor == At(w, p).phase.sealed.sequence)
    && (p != q && MayReturn(w, q) ==> At(w, p).floor != At(w, q).phase.sealed.sequence)
  }

  ghost predicate Safe(h: Digest, w: World) {
    Chain(h, w) && forall p, q :: FloorStands(w, p, q)
  }

  /**
   * A put-back that leaves floors alone: the replica hears of it, and the number before its own,
   * its new floor, is not one that another replica is inserting or has failed to insert.
   */
  ghost predicate Careful(w: World, step: Step) {
    PutsBack(w, step) ==>
      && step.PutBack?
      && forall q :: q != step.p && (At(w, q).phase.Inserting? || At(w, q).phase.Releasing?) ==>
           At(w, q).phase.sealed.sequence != At(w, step.p).phase.displaced.sequence
  }

  /** What one step may do to the replica that takes it, as far as floors are concerned. */
  lemma CarefulStep(h: Digest, w: World, step: Step)
    requires Chain(h, w) && Careful(w, step) && !step.Expire? && FloorStands(w, step.p, step.p)
    ensures var w' := Do(h, w, step);
            var r, r' := At(w, step.p), At(w', step.p);
            || (w'.head == w.head && r'.floor in {0, r.floor}
                && (r'.phase.Holds() ==> r.phase.Holds() && r'.phase.sealed == r.phase.sealed && r'.floor == r.floor)
                && (MayReturn(w', step.p) ==> MayReturn(w, step.p)))
            || (w'.head.sequence == w.head.sequence + 1 && w'.head.version > w.head.version
                && r'.floor in {r.floor, w'.head.sequence}
                && (r'.phase.Holds() ==> r'.phase.sealed.sequence == r'.floor == w'.head.sequence))
            || (PutsBack(w, step) && step.PutBack? && w'.head.version > w.head.version
                && w'.head.sequence == w.head.sequence - 1 == r'.floor == r.phase.displaced.sequence
                && r'.phase.Idle? && r.phase.sealed.sequence == w.head.sequence)
  {
    assert Fresh(w, step.p) && Held(w, step.p);
    if TakesNumber(w, step) {
      TakenFloor(h, w, step);
    } else if !PutsBack(w, step) {
      OtherFloor(h, w, step);
    }
  }

  lemma TakenFloor(h: Digest, w: World, step: Step)
    requires TakesNumber(w, step) && Fresh(w, step.p)
    ensures var w' := Do(h, w, step);
            var r' := At(w', step.p);
            && w'.head.sequence == w.head.sequence + 1 && w'.head.version > w.head.version
            && r'.floor in {At(w, step.p).floor, w'.head.sequence}
            && (r'.phase.Holds() ==> r'.phase.sealed.sequence == r'.floor == w'.head.sequence)
  {
  }

  lemma OtherFloor(h: Digest, w: World, step: Step)
    requires !step.Expire? && !TakesNumber(w, step) && !PutsBack(w, step)
    ensures var w' := Do(h, w, step);
            var r, r' := At(w, step.p), At(w', step.p);
            && w'.head == w.head && r'.floor in {0, r.floor}
            && (r'.phase.Holds() ==> r.phase.Holds() && r'.phase.sealed == r.phase.sealed && r'.floor == r.floor)
            && (MayReturn(w', step.p) ==> MayReturn(w, step.p))
  {
  }

  lemma OnlyOneMoves(h: Digest, w: World, step: Step, p: nat)
    requires step.Expire? || p != step.p
    ensures At(Do(h, w, step), p) == At(w, p)
  {
  }

  /** A version once stale stays stale. */
  lemma OthersReturnNoMore(h: Digest, w: World, w': World, q: nat)
    requires Fresh(w, q) && At(w', q) == At(w, q) && MayReturn(w', q)
    requires w'.head == w.head || w'.head.version > w.head.version
    ensures MayReturn(w, q) && (w'.head.version > w.head.version ==> !At(w, q).phase.PuttingBack?)
  {
  }

  lemma CarefulStepKeepsFloor(h: Digest, w: World, step: Step, p: nat, q: nat)
    requires Chain(h, w) && Careful(w, step) && !step.Expire?
    requires FloorStands(w, p, q) && FloorStands(w, p, step.p) && FloorStands(w, step.p, q)
    requires FloorStands(w, step.p, step.p)
    ensures FloorStands(Do(h, w, step), p, q)
  {
    var w' := Do(h, w, step);
    CarefulStep(h, w, step);
    if p != step.p { OnlyOneMoves(h, w, step, p); }
    if q != step.p {
      OnlyOneMoves(h, w, step, q);
      assert Fresh(w, q);
      if MayReturn(w', q) {
        OthersReturnNoMore(h, w, w', q);
      }
    }
    assert Held(w, p) && Held(w, q) && Held(w, step.p) && NotShared(w, p, q);
  }

  lemma CarefulKeepsSafe(h: Digest, w: World, step: Step)
    requires Safe(h, w) && Careful(w, step)
    ensures Safe(h, Do(h, w, step))
  {
    StepKeepsChain(h, w, step);
    forall p, q ensures FloorStands(Do(h, w, step), p, q) {
      assert FloorStands(w, p, q);
      if !step.Expire? {
        assert FloorStands(w, p, step.p) && FloorStands(w, step.p, q) && FloorStands(w, step.p, step.p);
        CarefulStepKeepsFloor(h, w, step, p, q);
      }
    }
  }

  /** A put-back nobody heard of leaves the head below the replica's own floor. */
  lemma UnheardPutBackSinksTheHead(h: Digest, w: World, p: nat)
    requires Safe(h, w) && CanPutBack(w, p)
    ensures var w' := Do(h, w, PutBackUnacknowledged(p));
            At(w', p).phase.Idle? && At(w', p).floor == w.head.sequence && w'.head.sequence == w.head.sequence - 1
  {
    assert Fresh(w, p) && Held(w, p) && FloorStands(w, p, p);
  }

  /** A careless one leaves the replica's floor on a number another replica holds, at the head. */
  lemma CarelessPutBackLeavesAThreat(h: Digest, w: World, p: nat, q: nat)
    requires Chain(h, w) && CanPutBack(w, p) && q != p
    requires At(w, q).phase.Inserting? || At(w, q).phase.Releasing?
    requires At(w, q).phase.sealed.sequence == At(w, p).phase.displaced.sequence
    ensures var w' := Do(h, w, PutBack(p));
            && At(w', p) == Replica(Idle, At(w, q).phase.sealed.sequence) && At(w', q) == At(w, q)
            && w'.head.sequence == At(w, q).phase.sealed.sequence && w'.head.hash == At(w, q).phase.sealed.hash
            && At(w, q).phase.displaced.sequence == w'.head.sequence - 1
  {
    assert Fresh(w, p) && Held(w, p) && Held(w, q);
  }

  /** From a safe world a step leads to a safe world exactly when it is careful, whatever the step. */
  lemma CarefulIsExact(h: Digest, w: World, step: Step)
    requires Safe(h, w)
    ensures Safe(h, Do(h, w, step)) <==> Careful(w, step)
  {
    if Careful(w, step) {
      CarefulKeepsSafe(h, w, step);
    } else if step.PutBackUnacknowledged? {
      UnheardPutBackSinksTheHead(h, w, step.p);
      assert !FloorStands(Do(h, w, step), step.p, step.p);
    } else {
      var q :| q != step.p && (At(w, q).phase.Inserting? || At(w, q).phase.Releasing?)
               && At(w, q).phase.sealed.sequence == At(w, step.p).phase.displaced.sequence;
      CarelessPutBackLeavesAThreat(h, w, step.p, q);
      assert !FloorStands(Do(h, w, step), step.p, q);
    }
  }

  /** The replica whose put-back landed unheard refuses its own next append. */
  lemma UnheardPutBackIsRefused(h: Digest, w: World, p: nat, c: Entry)
    requires Safe(h, w) && CanPutBack(w, p)
    ensures Refuses(RunFrom(h, w, [PutBackUnacknowledged(p)] + [Start(p, c)]), p)
  {
    UnheardPutBackSinksTheHead(h, w, p);
    RunStep(h, w, PutBackUnacknowledged(p), [Start(p, c)]);
    RunStep(h, Do(h, w, PutBackUnacknowledged(p)), Start(p, c), []);
    assert [Start(p, c)] + [] == [Start(p, c)];
  }

  /** And so does the replica that lowered its floor onto another's number, once that goes back too. */
  lemma CarelessPutBackIsRefused(h: Digest, w: World, p: nat, q: nat, c: Entry)
    requires Safe(h, w) && CanPutBack(w, p) && q != p
    requires At(w, q).phase.Inserting? || At(w, q).phase.Releasing?
    requires At(w, q).phase.sealed.sequence == At(w, p).phase.displaced.sequence
    ensures Refuses(RunFrom(h, w, [PutBack(p)] + ([InsertFails(q)] + ([CheckHead(q), PutBack(q)] + [Start(p, c)]))), p)
  {
    CarelessPutBackLeavesAThreat(h, w, p, q);
    var back := [CheckHead(q), PutBack(q)] + [Start(p, c)];
    RunStep(h, w, PutBack(p), [InsertFails(q)] + back);
    var w1 := Do(h, w, PutBack(p));
    RunStep(h, w1, InsertFails(q), back);
    var w2 := Do(h, w1, InsertFails(q));
    PutBackSteps(h, w2, q, [Start(p, c)]);
    var w3 := Returned(w2, q);
    RunStep(h, w3, Start(p, c), []);
    assert [Start(p, c)] + [] == [Start(p, c)];
  }

  ghost predicate CarefulRun(h: Digest, w: World, steps: seq<Step>)
    decreases |steps|
  {
    steps == [] || (Careful(w, steps[0]) && CarefulRun(h, Do(h, w, steps[0]), steps[1..]))
  }

  ghost predicate AlwaysSafe(h: Digest, w: World, steps: seq<Step>)
    decreases |steps|
  {
    Safe(h, w) && (steps == [] || AlwaysSafe(h, Do(h, w, steps[0]), steps[1..]))
  }

  /** A run stays safe throughout exactly when every step of it is careful, and then nobody is refused. */
  lemma {:induction false} SafeExactlyWhenCareful(h: Digest, w: World, steps: seq<Step>)
    requires Safe(h, w)
    ensures AlwaysSafe(h, w, steps) <==> CarefulRun(h, w, steps)
    ensures CarefulRun(h, w, steps) ==> forall p :: !Refuses(RunFrom(h, w, steps), p)
    decreases |steps|
  {
    if steps == [] {
      forall p ensures !Refuses(w, p) {
        assert FloorStands(w, p, p);
      }
    } else {
      CarefulIsExact(h, w, steps[0]);
      if Careful(w, steps[0]) {
        SafeExactlyWhenCareful(h, Do(h, w, steps[0]), steps[1..]);
      }
    }
  }

  /** The careless step, from a safe world, and what it leads to: the other half, for every such step. */
  lemma CarelessStepLeadsToRefusal(h: Digest, w: World, step: Step, c: Entry) returns (rest: seq<Step>)
    requires Safe(h, w) && !Careful(w, step)
    ensures |rest| <= 4 && forall i :: 0 <= i < |rest| ==> !rest[i].Expire? && Honest(rest[i])
    ensures Refuses(RunFrom(h, w, [step] + rest), step.p)
  {
    if step.PutBackUnacknowledged? {
      rest := [Start(step.p, c)];
      UnheardPutBackIsRefused(h, w, step.p, c);
    } else {
      var q :| q != step.p && (At(w, q).phase.Inserting? || At(w, q).phase.Releasing?)
               && At(w, q).phase.sealed.sequence == At(w, step.p).phase.displaced.sequence;
      rest := [InsertFails(q)] + ([CheckHead(q), PutBack(q)] + [Start(step.p, c)]);
      CarelessPutBackIsRefused(h, w, step.p, q, c);
    }
  }

  /** Past the first careless step of a run, a few honest steps lead to a refusal. */
  lemma {:induction false} FirstCarelessStep(h: Digest, w: World, steps: seq<Step>) returns (k: nat, rest: seq<Step>)
    requires Safe(h, w) && !CarefulRun(h, w, steps)
    ensures k < |steps| && |rest| <= 4 && forall i :: 0 <= i < |rest| ==> !rest[i].Expire? && Honest(rest[i])
    ensures CarefulRun(h, w, steps[..k]) && !Careful(RunFrom(h, w, steps[..k]), steps[k])
    ensures Refuses(RunFrom(h, w, steps[..k + 1] + rest), steps[k].p)
    decreases |steps|
  {
    var first := steps[0];
    if !Careful(w, first) {
      k := 0;
      rest := CarelessStepLeadsToRefusal(h, w, first, NoEntry);
      assert steps[..0] == [] && steps[..1] == [first];
    } else {
      CarefulKeepsSafe(h, w, first);
      var m;
      m, rest := FirstCarelessStep(h, Do(h, w, first), steps[1..]);
      k := m + 1;
      ShiftByOne(steps, m, rest);
    }
  }

  lemma ShiftByOne(steps: seq<Step>, m: nat, rest: seq<Step>)
    requires m + 1 < |steps|
    ensures steps[..m + 1] != [] && steps[..m + 1][0] == steps[0] && steps[..m + 1][1..] == steps[1..][..m]
    ensures var longer := steps[..m + 2] + rest;
            longer != [] && longer[0] == steps[0] && longer[1..] == steps[1..][..m + 1] + rest
  {
  }

  /**
   * From an empty log on. In a run without a careless put-back no replica is ever refused, so when
   * one is the head was changed by somebody else. Any other run has a first careless put-back, and
   * goes on from it to a refusal of that replica in at most four honest steps more.
   */
  lemma RefusalMeansInterference(h: Digest, steps: seq<Step>) returns (k: nat, rest: seq<Step>)
    ensures CarefulRun(h, Initial, steps) ==> forall p :: !Refuses(Run(h, steps), p)
    ensures !CarefulRun(h, Initial, steps) ==>
      && k < |steps| && CarefulRun(h, Initial, steps[..k]) && !Careful(Run(h, steps[..k]), steps[k])
      && |rest| <= 4 && (forall i :: 0 <= i < |rest| ==> !rest[i].Expire? && Honest(rest[i]))
      && Refuses(Run(h, steps[..k + 1] + rest), steps[k].p)
  {
    k, rest := 0, [];
    SafeAtFirst(h);
    if CarefulRun(h, Initial, steps) {
      SafeExactlyWhenCareful(h, Initial, steps);
    } else {
      k, rest := FirstCarelessStep(h, Initial, steps);
    }
  }

  lemma SafeAtFirst(h: Digest)
    ensures Safe(h, Initial)
  {
  }

  // ---- What a refusal is ----

  /** A replica seals only onto a head that was not under its floor. */
  ghost predicate SealsOverItsFloor(w: World) {
    forall p :: At(w, p).phase.Sealing? ==> At(w, p).floor <= At(w, p).phase.seen.sequence
  }

  lemma StepSealsOverFloor(h: Digest, w: World, step: Step)
    requires SealsOverItsFloor(w)
    ensures SealsOverItsFloor(Do(h, w, step))
  {
    forall p | At(Do(h, w, step), p).phase.Sealing?
      ensures At(Do(h, w, step), p).floor <= At(Do(h, w, step), p).phase.seen.sequence
    {
      SealerMoves(h, w, step, p);
    }
  }

  lemma SealerMoves(h: Digest, w: World, step: Step, p: nat)
    requires At(Do(h, w, step), p).phase.Sealing?
    ensures var r, r' := At(w, p), At(Do(h, w, step), p);
            r' == r || (step == Read(p) && r'.floor == r.floor <= w.head.sequence && r'.phase.seen == w.head)
  {
  }

  /** Every number taken in a run is taken by a replica whose floor is not above the head. */
  ghost predicate NeverTakesUnderItsFloor(h: Digest, w: World, steps: seq<Step>)
    decreases |steps|
  {
    steps == [] ||
    ((TakesNumber(w, steps[0]) ==> At(w, steps[0].p).floor <= w.head.sequence)
     && NeverTakesUnderItsFloor(h, Do(h, w, steps[0]), steps[1..]))
  }

  lemma {:induction false} RunsTakeOverTheFloor(h: Digest, w: World, steps: seq<Step>)
    requires Chain(h, w) && SealsOverItsFloor(w)
    ensures NeverTakesUnderItsFloor(h, w, steps)
    decreases |steps|
  {
    if steps != [] {
      var step := steps[0];
      if TakesNumber(w, step) {
        assert Fresh(w, step.p);
      }
      StepKeepsChain(h, w, step);
      StepSealsOverFloor(h, w, step);
      RunsTakeOverTheFloor(h, Do(h, w, step), steps[1..]);
    }
  }

  /**
   * From an empty log on no replica ever takes a number under its floor, and one that is refused is
   * through with its record: the head, the table and the claims are as they were, and so is its floor.
   */
  lemma RefusedReplicaTakesNothing(h: Digest, steps: seq<Step>, p: nat)
    ensures NeverTakesUnderItsFloor(h, Initial, steps)
    ensures var w := Run(h, steps);
            var w' := Do(h, w, Read(p));
            Refuses(w, p) ==>
              && w'.head == w.head && w'.table == w.table && w'.claims == w.claims
              && At(w', p) == Replica(Idle, At(w, p).floor)
              && forall q :: q != p ==> At(w', q) == At(w, q)
  {
    RunsTakeOverTheFloor(h, Initial, steps);
  }

  /** A replica that starts again has no floor, and is not refused. */
  lemma RestartedReplicaIsNotRefused(h: Digest, w: World, p: nat, entry: Entry)
    requires Chain(h, w)
    ensures !Refuses(Do(h, Do(h, w, Crash(p)), Start(p, entry)), p)
  {
  }

  /** A read that is not refused goes on to seal onto the head it saw. */
  lemma ReadSealsExactlyUnlessRefused(h: Digest, w: World, p: nat)
    requires At(w, p).phase.Reading?
    ensures At(Do(h, w, Read(p)), p).phase
         == if w.head.sequence < At(w, p).floor then Idle else Sealing(At(w, p).phase.entry, w.head)
  {
  }

  // ---- The false alarm, from an empty log ----

  /** Replica 1 takes the number after replica 0's, fails to insert and puts it back. */
  lemma SecondReplicaReturns(h: Digest, a: Entry, b: Entry, rest: seq<Step>) returns (w: World)
    ensures var steps := [Start(0, a), Read(0), Claim(0)] + ([Start(1, b), Read(1), Claim(1)]
                         + ([InsertFails(1)] + ([CheckHead(1), PutBack(1)] + rest)));
            RunFrom(h, Initial, steps) == RunFrom(h, w, rest)
    ensures var sealed := Seal(h, a, AsRecord(Initial.head));
            && At(w, 0) == Replica(Inserting(sealed, Initial.head), 1) && At(w, 1) == Replica(Idle, 1)
            && w.head.sequence == 1 && w.head.hash == sealed.hash
  {
    var back := [CheckHead(1), PutBack(1)] + rest;
    ClaimSteps(h, Initial, 0, a, [Start(1, b), Read(1), Claim(1)] + ([InsertFails(1)] + back));
    var w1 := Claimed(h, Initial, 0, a);
    ClaimSteps(h, w1, 1, b, [InsertFails(1)] + back);
    var w2 := Claimed(h, w1, 1, b);
    RunStep(h, w2, InsertFails(1), back);
    var w3 := Do(h, w2, InsertFails(1));
    PutBackSteps(h, w3, 1, rest);
    w := Returned(w3, 1);
  }

  /** Then replica 0's insert fails too, and replica 1 comes back with another record. */
  lemma FirstReplicaReturns(h: Digest, w: World, c: Entry)
    requires At(w, 0).phase.Inserting? && At(w, 1) == Replica(Idle, 1) && At(w, 0).phase.displaced == Initial.head
    requires w.head.sequence == At(w, 0).phase.sealed.sequence && w.head.hash == At(w, 0).phase.sealed.hash
    ensures var last := RunFrom(h, w, [InsertFails(0)] + ([CheckHead(0), PutBack(0)] + [Start(1, c)]));
            Refuses(last, 1) && last.head.sequence == 0
  {
    RunStep(h, w, InsertFails(0), [CheckHead(0), PutBack(0)] + [Start(1, c)]);
    var w1 := Do(h, w, InsertFails(0));
    PutBackSteps(h, w1, 0, [Start(1, c)]);
    var w2 := Returned(w1, 0);
    RunStep(h, w2, Start(1, c), []);
    assert [Start(1, c)] + [] == [Start(1, c)];
  }

  /**
   * A replica that puts a number back takes the number before it for its floor, and that one may
   * still be another replica's to put back. When it is, the head drops under the floor and the next
   * append is refused as an anchor wound back, though only honest steps were taken.
   */
  lemma FloorRaisesFalseAlarm(h: Digest, a: Entry, b: Entry, c: Entry)
    ensures var steps :=
              [Start(0, a), Read(0), Claim(0), Start(1, b), Read(1), Claim(1),
               InsertFails(1), CheckHead(1), PutBack(1), InsertFails(0), CheckHead(0), PutBack(0), Start(1, c)];
            AllHonest(steps) && Refuses(Run(h, steps), 1) && Run(h, steps).head.sequence == 0
  {
    var last := [InsertFails(0)] + ([CheckHead(0), PutBack(0)] + [Start(1, c)]);
    var w := SecondReplicaReturns(h, a, b, last);
    FirstReplicaReturns(h, w, c);
    assert [Start(0, a), Read(0), Claim(0), Start(1, b), Read(1), Claim(1),
            InsertFails(1), CheckHead(1), PutBack(1), InsertFails(0), CheckHead(0), PutBack(0), Start(1, c)]
        == [Start(0, a), Read(0), Claim(0)] + ([Start(1, b), Read(1), Claim(1)]
           + ([InsertFails(1)] + ([CheckHead(1), PutBack(1)] + last)));
  }
}
