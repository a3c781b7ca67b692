/**
 * How replicas append to one audit chain: a number is claimed by a compare-and-swap on the head
 * object, the sealed row is inserted into the log's table, and a number whose insert failed is put
 * back if nothing was claimed on top of it. The table drops rows as they pass their retention. A run
 * is any sequence of the steps below, by any number of replicas, in any order; a step that is not
 * enabled changes nothing.
 */
module AuditHead {
  import opened Common
  import opened AuditEncoding
  import opened AuditChain

  /** The head object: what it says, and the resource version an update has to be made against. */
  datatype Head = Head(version: nat, sequence: int, hash: Text)

  datatype Phase =
    | Idle
    | Reading(entry: Entry)
    | Sealing(entry: Entry, seen: Head)
    | Inserting(sealed: Record, displaced: Head)
    | Releasing(sealed: Record, displaced: Head)
    | PuttingBack(sealed: Record, displaced: Head, version: nat)
  {
    predicate Holds() { Inserting? || Releasing? || PuttingBack? }
  }

  datatype Replica = Replica(phase: Phase, floor: int)

  /** `claims` is history: the records whose numbers are taken, in order. Nothing reads it. */
  datatype World = World(head: Head, table: seq<Record>, replicas: map<nat, Replica>, claims: seq<Record>)

  datatype Step =
    | Start(p: nat, entry: Entry)
    | Read(p: nat)
    | Claim(p: nat)
    | ClaimUnacknowledged(p: nat)
    | GiveUp(p: nat)
    | Insert(p: nat)
    | InsertFails(p: nat)
    | InsertUnacknowledged(p: nat)
    | CheckHead(p: nat)
    | PutBack(p: nat)
    | PutBackUnacknowledged(p: nat)
    | Abandon(p: nat)
    | Crash(p: nat)
    | Expire(at: nat)

  const Initial := World(Head(0, 0, []), [], map[], [])

  function At(w: World, p: nat): Replica {
    if p in w.replicas then w.replicas[p] else Replica(Idle, 0)
  }

  function Move(w: World, p: nat, phase: Phase): World {
    w.(replicas := w.replicas[p := At(w, p).(phase := phase)])
  }

  function AsRecord(head: Head): Record {
    Nothing.(sequence := head.sequence, hash := head.hash)
  }

  /** The head has gone backwards as far as this replica can tell, and it refuses to append. */
  predicate Refuses(w: World, p: nat) {
    At(w, p).phase.Reading? && w.head.sequence < At(w, p).floor
  }

  function TakeNumber(w: World, sealed: Record, p: nat, after: Replica): World {
    World(Head(w.head.version + 1, sealed.sequence, sealed.hash), w.table,
          w.replicas[p := after], w.claims + [sealed])
  }

  function GiveNumberBack(w: World, displaced: Head, p: nat, after: Replica): World {
    World(Head(w.head.version + 1, displaced.sequence, displaced.hash), w.table,
          w.replicas[p := after], if w.claims == [] then [] else w.claims[..|w.claims| - 1])
  }

  function DoRead(w: World, p: nat): World {
    var phase := At(w, p).phase;
    if !phase.Reading? then w
    else if Refuses(w, p) then Move(w, p, Idle)
    else Move(w, p, Sealing(phase.entry, w.head))
  }

  predicate CanClaim(w: World, p: nat) {
    var phase := At(w, p).phase;
    phase.Sealing? && phase.seen.version == w.head.version
  }

  function DoClaim(h: Digest, w: World, p: nat): World {
    var phase := At(w, p).phase;
    if CanClaim(w, p) then
      var sealed := Seal(h, phase.entry, AsRecord(phase.seen));
      TakeNumber(w, sealed, p, Replica(Inserting(sealed, phase.seen), sealed.sequence))
    else if phase.Sealing? then Move(w, p, Reading(phase.entry))
    else w
  }

  function DoClaimUnacknowledged(h: Digest, w: World, p: nat): World {
    var phase := At(w, p).phase;
    if CanClaim(w, p) then
      TakeNumber(w, Seal(h, phase.entry, AsRecord(phase.seen)), p, At(w, p).(phase := Idle))
    else w
  }

  function DoInsert(w: World, p: nat): World {
    var phase := At(w, p).phase;
    if phase.Inserting? then Move(w.(table := w.table + [phase.sealed]), p, Idle) else w
  }

  function DoInsertUnacknowledged(w: World, p: nat): World {
    var phase := At(w, p).phase;
    if !phase.Inserting? then w
    else Move(w.(table := w.table + [phase.sealed]), p, Releasing(phase.sealed, phase.displaced))
  }

  function DoCheckHead(w: World, p: nat): World {
    var phase := At(w, p).phase;
    if !phase.Releasing? then w
    else if w.head.sequence != phase.sealed.sequence || w.head.hash != phase.sealed.hash then Move(w, p, Idle)
    else Move(w, p, PuttingBack(phase.sealed, phase.displaced, w.head.version))
  }

  predicate CanPutBack(w: World, p: nat) {
    var phase := At(w, p).phase;
    phase.PuttingBack? && phase.version == w.head.version
  }

  function DoPutBack(w: World, p: nat): World {
    var phase := At(w, p).phase;
    if CanPutBack(w, p) then
      GiveNumberBack(w, phase.displaced, p, Replica(Idle, phase.displaced.sequence))
    else if phase.PuttingBack? then Move(w, p, Idle)
    else w
  }

  function DoPutBackUnacknowledged(w: World, p: nat): World {
    if CanPutBack(w, p) then GiveNumberBack(w, At(w, p).phase.displaced, p, At(w, p).(phase := Idle)) else w
  }

  function DoExpire(w: World, at: nat): World {
    if at < |w.table| then w.(table := w.table[..at] + w.table[at + 1..]) else w
  }

  function PhaseAt(w: World, p: nat): Phase {
    At(w, p).phase
  }

  function Do(h: Digest, w: World, step: Step): World {
    match step
    case Start(p, entry) => if PhaseAt(w, p).Idle? then Move(w, p, Reading(entry)) else w
    case Read(p) => DoRead(w, p)
    case Claim(p) => DoClaim(h, w, p)
    case ClaimUnacknowledged(p) => DoClaimUnacknowledged(h, w, p)
    case GiveUp(p) => if PhaseAt(w, p).Reading? || PhaseAt(w, p).Sealing? then Move(w, p, Idle) else w
    case Insert(p) => DoInsert(w, p)
    case InsertFails(p) =>
      if PhaseAt(w, p).Inserting? then Move(w, p, Releasing(PhaseAt(w, p).sealed, PhaseAt(w, p).displaced)) else w
    case InsertUnacknowledged(p) => DoInsertUnacknowledged(w, p)
    case CheckHead(p) => DoCheckHead(w, p)
    case PutBack(p) => DoPutBack(w, p)
    case PutBackUnacknowledged(p) => DoPutBackUnacknowledged(w, p)
    case Abandon(p) => if PhaseAt(w, p).Releasing? || PhaseAt(w, p).PuttingBack? then Move(w, p, Idle) else w
    case Crash(p) => w.(replicas := w.replicas[p := Replica(Idle, 0)])
    case Expire(at) => DoExpire(w, at)
  }

  function RunFrom(h: Digest, w: World, steps: seq<Step>): World
    decreases |steps|
  {
    if steps == [] then w else RunFrom(h, Do(h, w, steps[0]), steps[1..])
  }

  function Run(h: Digest, steps: seq<Step>): World {
    RunFrom(h, Initial, steps)
  }

  /** A put-back that the head object takes, whether or not the replica hears of it. */
  predicate PutsBack(w: World, step: Step) {
    (step.PutBack? || step.PutBackUnacknowledged?) && CanPutBack(w, step.p)
  }

  /** It returns a number whose row is in the table all the same. */
  predicate ReturnsARow(w: World, step: Step) {
    PutsBack(w, step) && At(w, step.p).phase.sealed in w.table
  }

  // ---- What every step keeps ----

  function Before(claims: seq<Record>, n: nat): Record
    requires n <= |claims|
  {
    if n == 0 then Nothing else claims[n - 1]
  }

  /** A record is what sealing its content onto its predecessor gives. */
  ghost predicate SealedOnto(h: Digest, r: Record, previous: Record) {
    r == Seal(h, r.entry, previous)
  }

  ghost predicate Linked(h: Digest, claims: seq<Record>) {
    claims == [] ||
    var n := |claims| - 1;
    Linked(h, claims[..n]) && SealedOnto(h, claims[n], Before(claims, n))
  }

  predicate HeadIsLast(w: World) {
    w.head.sequence == |w.claims| && w.head.hash == Before(w.claims, |w.claims|).hash
  }

  /** An update at the current version is an update of what was read. */
  ghost predicate Fresh(w: World, p: nat) {
    var phase := At(w, p).phase;
    && (phase.Sealing? ==> phase.seen.version <= w.head.version)
    && (CanClaim(w, p) ==> phase.seen == w.head)
    && (phase.PuttingBack? ==> phase.version <= w.head.version)
    && (CanPutBack(w, p) ==> phase.sealed.sequence == w.head.sequence)
  }

  /** A record is at the place in the chain its number says. */
  predicate InPlace(claims: seq<Record>, r: Record) {
    1 <= r.sequence <= |claims| && claims[r.sequence - 1] == r
  }

  /** A replica between claiming and answering holds a number. */
  ghost predicate Held(w: World, p: nat) {
    var phase := At(w, p).phase;
    phase.Holds() ==>
      && InPlace(w.claims, phase.sealed)
      && phase.displaced.sequence == phase.sealed.sequence - 1
      && phase.displaced.hash == Before(w.claims, phase.sealed.sequence - 1).hash
  }

  /** No row is there before its insert. */
  ghost predicate Unwritten(w: World, p: nat) {
    var phase := At(w, p).phase;
    phase.Inserting? ==> phase.sealed !in w.table
  }

  ghost predicate NotShared(w: World, p: nat, q: nat) {
    p != q && At(w, p).phase.Holds() && At(w, q).phase.Holds() ==>
      At(w, p).phase.sealed.sequence != At(w, q).phase.sealed.sequence
  }

  ghost predicate RowsAreClaims(w: World) {
    && (forall r :: r in w.table ==> InPlace(w.claims, r))
    && Distinct(w.table)
  }

  /** What the head and the replicas keep, whatever becomes of the rows. */
  ghost predicate Chain(h: Digest, w: World) {
    Linked(h, w.claims) && HeadIsLast(w) && ReplicasAgree(w)
  }

  ghost predicate ReplicasAgree(w: World) {
    && (forall p :: Fresh(w, p) && Held(w, p))
    && (forall p, q :: NotShared(w, p, q))
  }

  /** What the table keeps as long as no number is returned from under its row. */
  ghost predicate Rows(w: World) {
    RowsAreClaims(w) && forall p :: Unwritten(w, p)
  }

  // Taking a number: the claim goes on the end, and nothing already in the chain moves.

  ghost predicate MayTake(w: World, sealed: Record, after: Phase) {
    && sealed.sequence == |w.claims| + 1
    && !after.Sealing? && !after.PuttingBack?
    && (after.Holds() ==> after.sealed == sealed && after.displaced == w.head)
  }

  lemma TakeKeepsReplica(w: World, sealed: Record, p: nat, after: Replica, q: nat)
    requires HeadIsLast(w) && MayTake(w, sealed, after.phase)
    requires Fresh(w, q) && Held(w, q)
    ensures Fresh(TakeNumber(w, sealed, p, after), q) && Held(TakeNumber(w, sealed, p, after), q)
  {
    assert At(TakeNumber(w, sealed, p, after), q) == if q == p then after else At(w, q);
  }

  lemma TakeKeepsPair(w: World, sealed: Record, p: nat, after: Replica, q: nat, r: nat)
    requires MayTake(w, sealed, after.phase)
    requires NotShared(w, q, r) && Held(w, q) && Held(w, r)
    ensures NotShared(TakeNumber(w, sealed, p, after), q, r)
  {
    assert At(TakeNumber(w, sealed, p, after), q) == if q == p then after else At(w, q);
    assert At(TakeNumber(w, sealed, p, after), r) == if r == p then after else At(w, r);
  }

  lemma TakeKeepsReplicas(w: World, sealed: Record, p: nat, after: Replica)
    requires HeadIsLast(w) && MayTake(w, sealed, after.phase) && ReplicasAgree(w)
    ensures ReplicasAgree(TakeNumber(w, sealed, p, after))
  {
    var w' := TakeNumber(w, sealed, p, after);
    forall q ensures Fresh(w', q) && Held(w', q) {
      TakeKeepsReplica(w, sealed, p, after, q);
    }
    forall q, r ensures NotShared(w', q, r) {
      assert Held(w, q) && Held(w, r);
      TakeKeepsPair(w, sealed, p, after, q, r);
    }
  }

  lemma LinkedSnoc(h: Digest, claims: seq<Record>, r: Record)
    requires Linked(h, claims) && SealedOnto(h, r, Before(claims, |claims|))
    ensures Linked(h, claims + [r])
  {
    assert (claims + [r])[..|claims|] == claims;
    assert Before(claims + [r], |claims|) == Before(claims, |claims|);
  }

  lemma {:induction false} LinkedIsDense(h: Digest, claims: seq<Record>)
    requires Linked(h, claims)
    ensures Before(claims, |claims|).sequence == |claims|
  {
    if claims != [] {
      LinkedIsDense(h, claims[..|claims| - 1]);
      assert Before(claims[..|claims| - 1], |claims| - 1) == Before(claims, |claims| - 1);
    }
  }

  lemma SealDependsOnLink(h: Digest, entry: Entry, head: Head, last: Record)
    requires head.sequence == last.sequence && head.hash == last.hash
    ensures SealedOnto(h, Seal(h, entry, AsRecord(head)), last)
  {
  }

  lemma TakeKeepsChain(h: Digest, w: World, sealed: Record, p: nat, after: Replica)
    requires Chain(h, w) && MayTake(w, sealed, after.phase) && SealedOnto(h, sealed, Before(w.claims, |w.claims|))
    ensures Chain(h, TakeNumber(w, sealed, p, after))
  {
    LinkedSnoc(h, w.claims, sealed);
    TakeKeepsReplicas(w, sealed, p, after);
  }

  lemma TakeKeepsRows(w: World, sealed: Record, p: nat, after: Replica)
    requires Rows(w) && MayTake(w, sealed, after.phase)
    ensures Rows(TakeNumber(w, sealed, p, after))
  {
    var w' := TakeNumber(w, sealed, p, after);
    forall r | r in w.table ensures InPlace(w'.claims, r) && r != sealed {
      assert InPlace(w.claims, r);
    }
    forall q ensures Unwritten(w', q) {
      assert Unwritten(w, q);
      assert At(w', q) == if q == p then after else At(w, q);
    }
  }

  // Giving a number back takes exactly the replica's own record off the end.

  lemma GiveBackKeepsReplica(w: World, p: nat, after: Replica, q: nat)
    requires w.head.sequence == |w.claims| && CanPutBack(w, p) && after.phase.Idle?
    requires Fresh(w, p) && Held(w, p) && Fresh(w, q) && Held(w, q) && NotShared(w, p, q)
    ensures var w' := GiveNumberBack(w, At(w, p).phase.displaced, p, after);
            Fresh(w', q) && Held(w', q)
  {
    var w' := GiveNumberBack(w, At(w, p).phase.displaced, p, after);
    assert At(w', q) == if q == p then after else At(w, q);
    assert w'.claims == w.claims[..|w.claims| - 1];
  }

  lemma GiveBackKeepsReplicas(w: World, p: nat, after: Replica)
    requires w.head.sequence == |w.claims| && CanPutBack(w, p) && after.phase.Idle?
    requires ReplicasAgree(w)
    ensures ReplicasAgree(GiveNumberBack(w, At(w, p).phase.displaced, p, after))
  {
    var w' := GiveNumberBack(w, At(w, p).phase.displaced, p, after);
    forall q ensures Fresh(w', q) && Held(w', q) {
      assert Fresh(w, p) && Held(w, p) && Fresh(w, q) && NotShared(w, p, q);
      GiveBackKeepsReplica(w, p, after, q);
    }
    forall q, r ensures NotShared(w', q, r) {
      assert NotShared(w, q, r);
      assert At(w', q) == if q == p then after else At(w, q);
      assert At(w', r) == if r == p then after else At(w, r);
    }
  }

  lemma GiveBackKeepsChain(h: Digest, w: World, p: nat, after: Replica)
    requires Chain(h, w) && CanPutBack(w, p) && after.phase.Idle?
    ensures Chain(h, GiveNumberBack(w, At(w, p).phase.displaced, p, after))
  {
    assert Fresh(w, p) && Held(w, p);
    GiveBackKeepsReplicas(w, p, after);
  }

  lemma GiveBackKeepsRows(h: Digest, w: World, p: nat, after: Replica)
    requires Chain(h, w) && Rows(w) && CanPutBack(w, p) && after.phase.Idle?
    requires At(w, p).phase.sealed !in w.table
    ensures Rows(GiveNumberBack(w, At(w, p).phase.displaced, p, after))
  {
    var w' := GiveNumberBack(w, At(w, p).phase.displaced, p, after);
    assert Fresh(w, p) && Held(w, p);
    forall r | r in w.table ensures InPlace(w'.claims, r) {
      assert InPlace(w.claims, r) && r != At(w, p).phase.sealed;
    }
    forall q ensures Unwritten(w', q) {
      assert Unwritten(w, q);
      assert At(w', q) == if q == p then after else At(w, q);
    }
  }

  /** A number returned from under its row leaves a row past the head. */
  lemma ReturnedRowIsPastTheHead(h: Digest, w: World, step: Step)
    requires Chain(h, w) && ReturnsARow(w, step)
    ensures var w' := Do(h, w, step);
            At(w, step.p).phase.sealed in w'.table && At(w, step.p).phase.sealed.sequence > w'.head.sequence
  {
    assert Fresh(w, step.p) && Held(w, step.p);
  }

  // Inserting the row of a number the replica holds, and dropping a row.

  lemma InsertKeepsRows(h: Digest, w: World, p: nat, after: Replica)
    requires Chain(h, w) && Rows(w) && At(w, p).phase.Inserting? && !after.phase.Inserting?
    ensures Rows(w.(table := w.table + [At(w, p).phase.sealed], replicas := w.replicas[p := after]))
  {
    var sealed := At(w, p).phase.sealed;
    var w' := w.(table := w.table + [sealed], replicas := w.replicas[p := after]);
    assert Held(w, p) && Unwritten(w, p);
    forall q ensures Unwritten(w', q) {
      assert Unwritten(w, q) && NotShared(w, p, q);
      assert At(w', q) == if q == p then after else At(w, q);
    }
  }

  lemma ExpireKeepsRows(w: World, at: nat)
    requires Rows(w)
    ensures Rows(DoExpire(w, at))
  {
    var w' := DoExpire(w, at);
    forall r | r in w'.table ensures r in w.table {
    }
    forall q ensures Unwritten(w', q) {
      assert Unwritten(w, q);
    }
  }

  // Every other step leaves the head, the log and the claims alone, and may only let go of a number.

  ghost predicate MayMove(w: World, before: Phase, after: Phase) {
    && (after.Sealing? ==> after.seen == w.head)
    && (after.PuttingBack? ==> after.version == w.head.version && after.sealed.sequence == w.head.sequence)
    && (after.Holds() ==> before.Holds() && after.sealed == before.sealed && after.displaced == before.displaced)
  }

  lemma MoveKeepsReplica(w: World, p: nat, after: Replica, q: nat)
    requires MayMove(w, At(w, p).phase, after.phase) && Fresh(w, q) && Held(w, q)
    ensures var w' := w.(replicas := w.replicas[p := after]);
            Fresh(w', q) && Held(w', q)
  {
    var w' := w.(replicas := w.replicas[p := after]);
    assert At(w', q) == if q == p then after else At(w, q);
  }

  lemma MoveKeepsChain(h: Digest, w: World, w': World, p: nat, after: Replica)
    requires Chain(h, w) && MayMove(w, At(w, p).phase, after.phase)
    requires w' == w.(table := w'.table, replicas := w.replicas[p := after])
    ensures Chain(h, w')
  {
    forall q ensures Fresh(w', q) && Held(w', q) {
      assert Fresh(w, q);
      MoveKeepsReplica(w, p, after, q);
    }
    forall q, r ensures NotShared(w', q, r) {
      assert NotShared(w, q, r);
      MoveKeepsPair(w, p, after, q, r);
    }
  }

  lemma MoveKeepsPair(w: World, p: nat, after: Replica, q: nat, r: nat)
    requires MayMove(w, At(w, p).phase, after.phase) && NotShared(w, q, r)
    ensures NotShared(w.(replicas := w.replicas[p := after]), q, r)
  {
    var w' := w.(replicas := w.replicas[p := after]);
    assert At(w', q) == if q == p then after else At(w, q);
    assert At(w', r) == if r == p then after else At(w, r);
  }

  /** Every step of any replica, and every expiry, keeps the chain and who holds what in it. */
  lemma StepKeepsChain(h: Digest, w: World, step: Step)
    requires Chain(h, w)
    ensures Chain(h, Do(h, w, step))
  {
    if step.Expire? {
      ExpireKeepsChain(h, w, step.at);
    } else if TakesNumber(w, step) {
      var p := step.p;
      assert Fresh(w, p);
      Taken(h, w, step);
      TakeKeepsChain(h, w, SealedBy(h, w, p), p, At(Do(h, w, step), p));
    } else if PutsBack(w, step) {
      GiveBackKeepsChain(h, w, step.p, At(Do(h, w, step), step.p));
    } else {
      assert Fresh(w, step.p);
      OtherStepsMove(h, w, step);
      if Do(h, w, step) != w {
        MoveKeepsChain(h, w, Do(h, w, step), step.p, At(Do(h, w, step), step.p));
      }
    }
  }

  lemma ExpireKeepsChain(h: Digest, w: World, at: nat)
    requires Chain(h, w)
    ensures Chain(h, DoExpire(w, at))
  {
    var w' := DoExpire(w, at);
    forall p ensures Fresh(w', p) && Held(w', p) {
      assert Fresh(w, p) && Held(w, p);
    }
    forall p, q ensures NotShared(w', p, q) {
      assert NotShared(w, p, q);
    }
  }

  predicate TakesNumber(w: World, step: Step) {
    (step.Claim? || step.ClaimUnacknowledged?) && CanClaim(w, step.p)
  }

  function SealedBy(h: Digest, w: World, p: nat): Record
    requires At(w, p).phase.Sealing?
  {
    Seal(h, At(w, p).phase.entry, AsRecord(w.head))
  }

  lemma Taken(h: Digest, w: World, step: Step)
    requires Linked(h, w.claims) && HeadIsLast(w) && TakesNumber(w, step) && Fresh(w, step.p)
    ensures var sealed, after := SealedBy(h, w, step.p), At(Do(h, w, step), step.p);
            && Do(h, w, step) == TakeNumber(w, sealed, step.p, after)
            && MayTake(w, sealed, after.phase) && SealedOnto(h, sealed, Before(w.claims, |w.claims|))
  {
    LinkedIsDense(h, w.claims);
    SealDependsOnLink(h, At(w, step.p).phase.entry, w.head, Before(w.claims, |w.claims|));
  }

  /** Every step but one keeps the rows in place and distinct. */
  lemma StepKeepsRows(h: Digest, w: World, step: Step)
    requires Chain(h, w) && Rows(w) && !ReturnsARow(w, step)
    ensures Rows(Do(h, w, step))
  {
    if step.Expire? {
      ExpireKeepsRows(w, step.at);
    } else if TakesNumber(w, step) {
      assert Fresh(w, step.p);
      Taken(h, w, step);
      TakeKeepsRows(w, SealedBy(h, w, step.p), step.p, At(Do(h, w, step), step.p));
    } else if PutsBack(w, step) {
      GiveBackKeepsRows(h, w, step.p, At(Do(h, w, step), step.p));
    } else if (step.Insert? || step.InsertUnacknowledged?) && At(w, step.p).phase.Inserting? {
      InsertKeepsRows(h, w, step.p, At(Do(h, w, step), step.p));
    } else {
      OthersWriteNothing(h, w, step);
      forall q ensures Unwritten(Do(h, w, step), q) {
        assert Unwritten(w, q);
        OtherKeepsUnwritten(h, w, step, q);
      }
    }
  }

  lemma OthersWriteNothing(h: Digest, w: World, step: Step)
    requires !step.Expire? && !TakesNumber(w, step) && !PutsBack(w, step)
    requires !((step.Insert? || step.InsertUnacknowledged?) && At(w, step.p).phase.Inserting?)
    ensures Do(h, w, step).table == w.table && Do(h, w, step).claims == w.claims
  {
  }

  lemma OtherKeepsUnwritten(h: Digest, w: World, step: Step, q: nat)
    requires !step.Expire? && !TakesNumber(w, step) && !PutsBack(w, step)
    requires !((step.Insert? || step.InsertUnacknowledged?) && At(w, step.p).phase.Inserting?)
    requires Unwritten(w, q)
    ensures Unwritten(Do(h, w, step), q)
  {
  }

  lemma OtherStepsMove(h: Digest, w: World, step: Step)
    requires !step.Expire? && !TakesNumber(w, step) && !PutsBack(w, step) && Fresh(w, step.p)
    ensures var w' := Do(h, w, step);
            var after := At(w', step.p);
            w' == w || (MayMove(w, At(w, step.p).phase, after.phase)
                        && w' == w.(table := w'.table, replicas := w.replicas[step.p := after]))
  {
  }

  lemma {:induction false} RunsKeepChain(h: Digest, w: World, steps: seq<Step>)
    requires Chain(h, w)
    ensures Chain(h, RunFrom(h, w, steps))
    decreases |steps|
  {
    if steps != [] {
      StepKeepsChain(h, w, steps[0]);
      RunsKeepChain(h, Do(h, w, steps[0]), steps[1..]);
    }
  }

  /** A run in which no number is returned from under its row. */
  ghost predicate ReturnsNoRow(h: Digest, w: World, steps: seq<Step>)
    decreases |steps|
  {
    steps == [] || (!ReturnsARow(w, steps[0]) && ReturnsNoRow(h, Do(h, w, steps[0]), steps[1..]))
  }

  lemma {:induction false} RunsKeepRows(h: Digest, w: World, steps: seq<Step>)
    requires Chain(h, w) && Rows(w) && ReturnsNoRow(h, w, steps)
    ensures Rows(RunFrom(h, w, steps))
    decreases |steps|
  {
    if steps != [] {
      StepKeepsChain(h, w, steps[0]);
      StepKeepsRows(h, w, steps[0]);
      RunsKeepRows(h, Do(h, w, steps[0]), steps[1..]);
    }
  }
}
