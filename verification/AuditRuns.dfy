/** What holds of the audit log after every run of the appenders, with rows ageing out of it. */
module AuditRuns {
  import opened Common
  import opened AuditEncoding
  import opened AuditChain
  import opened AuditHead

  /** The table as the verification endpoint reads it: the same rows, ordered by sequence. */
  ghost predicate OrderedView(rows: seq<Record>, table: seq<Record>) {
    && multiset(rows) == multiset(table)
    && forall i, j :: 0 <= i < j < |rows| ==> rows[i].sequence <= rows[j].sequence
  }

  function AnchorOf(head: Head): Anchor {
    Anchor(true, head.sequence, head.hash)
  }

  lemma {:induction false} LinkedIsSound(h: Digest, claims: seq<Record>)
    requires Linked(h, claims) && forall content :: h(content) != []
    ensures Sound(h, claims, Nothing) && (claims != [] ==> claims[|claims| - 1].hash != [])
  {
    if claims != [] {
      var front, last := claims[..|claims| - 1], claims[|claims| - 1];
      LinkedIsSound(h, front);
      assert SealedOnto(h, last, Before(claims, |front|));
      assert Before(claims, |front|) == if front == [] then Nothing else front[|front| - 1];
      SealExtends(h, front, Nothing, last.entry);
      assert claims == front + [last];
    }
  }

  lemma {:induction false} DistinctHasNoRepeat(s: seq<Record>, x: Record)
    requires Distinct(s)
    ensures multiset(s)[x] <= 1
  {
    if s != [] {
      DistinctHasNoRepeat(s[..|s| - 1], x);
      assert s == s[..|s| - 1] + [s[|s| - 1]];
      if s[|s| - 1] == x {
        assert x !in s[..|s| - 1];
      }
    }
  }

  lemma ViewIsDistinct(rows: seq<Record>, table: seq<Record>)
    requires multiset(rows) == multiset(table) && Distinct(table)
    ensures Distinct(rows) && |rows| == |table| && forall r :: r in rows <==> r in table
  {
    assert |multiset(rows)| == |rows| && |multiset(table)| == |table|;
    assert forall r :: r in rows <==> r in multiset(rows);
    assert forall r :: r in table <==> r in multiset(table);
    forall i, j | 0 <= i < j < |rows| ensures rows[i] != rows[j] {
      DistinctHasNoRepeat(table, rows[i]);
      if rows[i] == rows[j] {
        RepeatIsCounted(rows, i, j);
      }
    }
  }

  lemma RepeatIsCounted(rows: seq<Record>, i: nat, j: nat)
    requires i < j < |rows| && rows[i] == rows[j]
    ensures multiset(rows)[rows[i]] >= 2
  {
    var x := rows[i];
    assert rows == rows[..j] + [x] + rows[j + 1..];
    assert rows[..j] == rows[..i] + [x] + rows[i + 1..j];
  }

  /** Rows in place and in strict order, as many as there are claims, are the claims. */
  lemma {:induction false} FullViewIsTheChain(rows: seq<Record>, claims: seq<Record>, i: nat)
    requires forall r :: r in rows ==> InPlace(claims, r)
    requires forall j, k :: 0 <= j < k < |rows| ==> rows[j].sequence < rows[k].sequence
    requires i < |rows|
    ensures i < rows[i].sequence <= |claims| - (|rows| - 1 - i)
    decreases |rows| - i
  {
    assert rows[i] in rows && InPlace(claims, rows[i]);
    RowIsAtLeast(rows, claims, i);
    if i + 1 < |rows| {
      FullViewIsTheChain(rows, claims, i + 1);
    }
  }

  lemma {:induction false} RowIsAtLeast(rows: seq<Record>, claims: seq<Record>, i: nat)
    requires forall r :: r in rows ==> InPlace(claims, r)
    requires forall j, k :: 0 <= j < k < |rows| ==> rows[j].sequence < rows[k].sequence
    requires i < |rows|
    ensures i < rows[i].sequence
  {
    assert rows[i] in rows && InPlace(claims, rows[i]);
    if i > 0 {
      RowIsAtLeast(rows, claims, i - 1);
    }
  }

  lemma OrderedRowsInPlace(rows: seq<Record>, claims: seq<Record>)
    requires forall r :: r in rows ==> InPlace(claims, r)
    requires Distinct(rows)
    requires forall i, j :: 0 <= i < j < |rows| ==> rows[i].sequence <= rows[j].sequence
    ensures |rows| <= |claims| && (|rows| == |claims| <==> rows == claims)
  {
    forall i, j | 0 <= i < j < |rows| ensures rows[i].sequence < rows[j].sequence {
      assert InPlace(claims, rows[i]) && InPlace(claims, rows[j]);
    }
    forall i | 0 <= i < |rows| ensures i < rows[i].sequence <= |claims| - (|rows| - 1 - i) {
      FullViewIsTheChain(rows, claims, i);
    }
    if |rows| > 0 {
      assert 0 < rows[0].sequence <= |claims| - (|rows| - 1);
    }
    if |rows| == |claims| {
      forall i | 0 <= i < |rows| ensures rows[i] == claims[i] {
        assert rows[i].sequence == i + 1 && InPlace(claims, rows[i]);
      }
    }
  }

  /** The verification of a whole log is right in every world that runs lead to. */
  lemma ViewIsExact(h: Digest, w: World, rows: seq<Record>)
    requires Chain(h, w) && Rows(w) && OrderedView(rows, w.table) && forall content :: h(content) != []
    ensures |w.table| <= w.head.sequence
    ensures Intact(h, rows, AnchorOf(w.head)) <==> |w.table| == w.head.sequence
    ensures Intact(h, rows, AnchorOf(w.head)) <==> rows == w.claims
  {
    ViewIsDistinct(rows, w.table);
    OrderedRowsInPlace(rows, w.claims);
    IntactMeansSoundAndComplete(h, rows, AnchorOf(w.head));
    LinkedIsSound(h, w.claims);
  }

  /**
   * Verifying the whole log, read at once, is right. After every run, whatever the interleaving, the
   * crashes, the failed inserts and the rows that have aged out, it finds the log intact exactly
   * when every number that is claimed has its row, and then the rows are the claims in order. The
   * runs left out are those in which a number is returned from under its row.
   */
  lemma VerificationIsExact(h: Digest, steps: seq<Step>, rows: seq<Record>)
    requires ReturnsNoRow(h, Initial, steps) && forall content :: h(content) != []
    requires OrderedView(rows, Run(h, steps).table)
    ensures var w := Run(h, steps);
            && |w.table| <= w.head.sequence
            && (Intact(h, rows, AnchorOf(w.head)) <==> |w.table| == w.head.sequence)
            && (Intact(h, rows, AnchorOf(w.head)) <==> rows == w.claims)
  {
    RunsKeepChain(h, Initial, steps);
    RunsKeepRows(h, Initial, steps);
    ViewIsExact(h, Run(h, steps), rows);
  }

  /** No two rows have one number, and none has a number past the head. */
  ghost predicate RowsFit(w: World) {
    && (forall i, j :: 0 <= i < j < |w.table| ==> w.table[i].sequence != w.table[j].sequence)
    && forall r :: r in w.table ==> 1 <= r.sequence <= w.head.sequence
  }

  ghost predicate RowsAlwaysFit(h: Digest, w: World, steps: seq<Step>)
    decreases |steps|
  {
    RowsFit(w) && (steps == [] || RowsAlwaysFit(h, Do(h, w, steps[0]), steps[1..]))
  }

  lemma RowsInPlaceFit(h: Digest, w: World)
    requires HeadIsLast(w) && RowsAreClaims(w)
    ensures RowsFit(w)
  {
    forall i, j | 0 <= i < j < |w.table| ensures w.table[i].sequence != w.table[j].sequence {
      assert InPlace(w.claims, w.table[i]) && InPlace(w.claims, w.table[j]);
    }
  }

  lemma {:induction false} RowsFitExactlyWhile(h: Digest, w: World, steps: seq<Step>)
    requires Chain(h, w) && Rows(w)
    ensures RowsAlwaysFit(h, w, steps) <==> ReturnsNoRow(h, w, steps)
    decreases |steps|
  {
    RowsInPlaceFit(h, w);
    if steps != [] {
      var w' := Do(h, w, steps[0]);
      if ReturnsARow(w, steps[0]) {
        ReturnedRowIsPastTheHead(h, w, steps[0]);
        assert !RowsFit(w');
      } else {
        StepKeepsChain(h, w, steps[0]);
        StepKeepsRows(h, w, steps[0]);
        RowsFitExactlyWhile(h, w', steps[1..]);
      }
    }
  }

  /**
   * Over every run, with inserts that land and report an error and rows that age out, rows keep
   * numbers of their own at or below the head throughout exactly when no number is returned from
   * under its row.
   */
  lemma NumbersAreKeptExactlyWhen(h: Digest, steps: seq<Step>)
    ensures RowsAlwaysFit(h, Initial, steps) <==> ReturnsNoRow(h, Initial, steps)
  {
    RowsFitExactlyWhile(h, Initial, steps);
  }

  /** Two rows in the table never share a number, whoever wrote them and whatever failed in between. */
  lemma NumbersAreNeverReused(h: Digest, steps: seq<Step>, i: nat, j: nat)
    requires ReturnsNoRow(h, Initial, steps) && i < j < |Run(h, steps).table|
    ensures Run(h, steps).table[i].sequence != Run(h, steps).table[j].sequence
  {
    RunsKeepChain(h, Initial, steps);
    RunsKeepRows(h, Initial, steps);
    RowsInPlaceFit(h, Run(h, steps));
  }

  /** A store that never keeps a row it reported lost. */
  predicate Honest(step: Step) {
    !step.InsertUnacknowledged?
  }

  ghost predicate AllHonest(steps: seq<Step>) {
    forall i :: 0 <= i < |steps| ==> Honest(steps[i])
  }

  ghost predicate HeldHasNoRow(w: World, p: nat) {
    At(w, p).phase.Holds() ==> At(w, p).phase.sealed !in w.table
  }

  lemma HonestStepWrites(h: Digest, w: World, step: Step, r: Record)
    requires Honest(step) && r in Do(h, w, step).table && r !in w.table
    ensures step.Insert? && At(w, step.p).phase.Inserting? && r == At(w, step.p).phase.sealed
  {
  }

  lemma HeldMoves(h: Digest, w: World, step: Step, q: nat)
    requires Honest(step) && At(Do(h, w, step), q).phase.Holds()
    ensures var after := At(Do(h, w, step), q).phase;
            || (At(w, q).phase.Holds() && after.sealed == At(w, q).phase.sealed
                && !(step.Insert? && step.p == q && At(w, q).phase.Inserting?))
            || (TakesNumber(w, step) && q == step.p && after.sealed.sequence == At(w, q).phase.seen.sequence + 1)
  {
  }

  lemma HonestStepWritesNoHeld(h: Digest, w: World, step: Step, q: nat)
    requires Chain(h, w) && Rows(w) && Honest(step) && HeldHasNoRow(w, q)
    ensures HeldHasNoRow(Do(h, w, step), q)
  {
    var w' := Do(h, w, step);
    var after := At(w', q).phase;
    assert forall r :: r in w.table ==> InPlace(w.claims, r);
    if after.Holds() {
      HeldMoves(h, w, step, q);
      HeldNumbersDiffer(w, step, q);
      if after.sealed in w'.table && after.sealed !in w.table {
        HonestStepWrites(h, w, step, after.sealed);
      }
    }
  }

  lemma HeldNumbersDiffer(w: World, step: Step, q: nat)
    requires HeadIsLast(w) && ReplicasAgree(w)
    ensures TakesNumber(w, step) ==> At(w, step.p).phase.seen.sequence == |w.claims|
    ensures step.Insert? && step.p != q && At(w, step.p).phase.Inserting? && At(w, q).phase.Holds() ==>
              At(w, step.p).phase.sealed != At(w, q).phase.sealed
  {
    if !step.Expire? {
      assert Fresh(w, step.p) && NotShared(w, step.p, q);
    }
  }

  /** With an honest store no run returns a row, whatever else fails. */
  lemma {:induction false} HonestRunsReturnNoRow(h: Digest, w: World, steps: seq<Step>)
    requires Chain(h, w) && Rows(w) && AllHonest(steps)
    requires forall q :: HeldHasNoRow(w, q)
    ensures ReturnsNoRow(h, w, steps)
    decreases |steps|
  {
    if steps != [] {
      var w' := Do(h, w, steps[0]);
      assert !steps[0].Expire? ==> HeldHasNoRow(w, steps[0].p);
      StepKeepsChain(h, w, steps[0]);
      StepKeepsRows(h, w, steps[0]);
      forall q ensures HeldHasNoRow(w', q) {
        HonestStepWritesNoHeld(h, w, steps[0], q);
      }
      HonestRunsReturnNoRow(h, w', steps[1..]);
    }
  }

  /** The appenders only ever add rows: none leaves the table but by its retention. */
  lemma {:induction false} AppendersRemoveNoRow(h: Digest, w: World, steps: seq<Step>)
    requires forall i :: 0 <= i < |steps| ==> !steps[i].Expire?
    ensures w.table <= RunFrom(h, w, steps).table
    decreases |steps|
  {
    if steps != [] {
      assert w.table <= Do(h, w, steps[0]).table;
      AppendersRemoveNoRow(h, Do(h, w, steps[0]), steps[1..]);
    }
  }

  // ---- A run worth knowing ----

  /** The world after a replica took the next number and sealed its record. */
  function Claimed(h: Digest, w: World, p: nat, entry: Entry): World {
    var sealed := Seal(h, entry, AsRecord(w.head));
    TakeNumber(w, sealed, p, Replica(Inserting(sealed, w.head), sealed.sequence))
  }

  lemma ClaimSteps(h: Digest, w: World, p: nat, entry: Entry, rest: seq<Step>)
    requires At(w, p).phase.Idle? && At(w, p).floor <= w.head.sequence
    ensures RunFrom(h, w, [Start(p, entry), Read(p), Claim(p)] + rest) == RunFrom(h, Claimed(h, w, p, entry), rest)
  {
    ClaimsInThree(h, w, p, entry);
    RunStep(h, w, Start(p, entry), [Read(p), Claim(p)] + rest);
    RunTwo(h, Do(h, w, Start(p, entry)), Read(p), Claim(p), rest);
    assert [Start(p, entry)] + ([Read(p), Claim(p)] + rest) == [Start(p, entry), Read(p), Claim(p)] + rest;
  }

  lemma ClaimsInThree(h: Digest, w: World, p: nat, entry: Entry)
    requires At(w, p).phase.Idle? && At(w, p).floor <= w.head.sequence
    ensures Do(h, Do(h, Do(h, w, Start(p, entry)), Read(p)), Claim(p)) == Claimed(h, w, p, entry)
  {
    var w3 := Do(h, Do(h, Do(h, w, Start(p, entry)), Read(p)), Claim(p));
    assert w3.replicas == Claimed(h, w, p, entry).replicas;
  }

  lemma RunTwo(h: Digest, w: World, a: Step, b: Step, rest: seq<Step>)
    ensures RunFrom(h, w, [a, b] + rest) == RunFrom(h, Do(h, Do(h, w, a), b), rest)
  {
    RunStep(h, w, a, [b] + rest);
    RunStep(h, Do(h, w, a), b, rest);
    assert [a] + ([b] + rest) == [a, b] + rest;
  }

  lemma {:induction false} RunConcat(h: Digest, w: World, x: seq<Step>, y: seq<Step>)
    ensures RunFrom(h, w, x + y) == RunFrom(h, RunFrom(h, w, x), y)
    decreases |x|
  {
    if x == [] {
      assert x + y == y;
    } else {
      assert (x + y)[1..] == x[1..] + y;
      RunConcat(h, Do(h, w, x[0]), x[1..], y);
    }
  }

  lemma RunStep(h: Digest, w: World, step: Step, rest: seq<Step>)
    ensures RunFrom(h, w, [step] + rest) == RunFrom(h, Do(h, w, step), rest)
  {
    assert ([step] + rest)[1..] == rest;
  }

  /** The world after a replica whose insert failed at the head put its number back. */
  function Returned(w: World, p: nat): World
    requires At(w, p).phase.Releasing?
  {
    var displaced := At(w, p).phase.displaced;
    GiveNumberBack(w, displaced, p, Replica(Idle, displaced.sequence))
  }

  lemma PutBackSteps(h: Digest, w: World, p: nat, rest: seq<Step>)
    requires At(w, p).phase.Releasing?
    requires w.head.sequence == At(w, p).phase.sealed.sequence && w.head.hash == At(w, p).phase.sealed.hash
    ensures RunFrom(h, w, [CheckHead(p), PutBack(p)] + rest) == RunFrom(h, Returned(w, p), rest)
  {
    ReturnsInTwo(h, w, p);
    RunTwo(h, w, CheckHead(p), PutBack(p), rest);
  }

  lemma ReturnsInTwo(h: Digest, w: World, p: nat)
    requires At(w, p).phase.Releasing?
    requires w.head.sequence == At(w, p).phase.sealed.sequence && w.head.hash == At(w, p).phase.sealed.hash
    ensures Do(h, Do(h, w, CheckHead(p)), PutBack(p)) == Returned(w, p)
  {
    var w2 := Do(h, Do(h, w, CheckHead(p)), PutBack(p));
    assert w2.replicas == Returned(w, p).replicas;
  }

  /**
   * The one failing step, from the start: the store keeps a row and reports that it did not; the number is put
   * back under the row that is there, and the next append takes it again.
   */
  lemma UnacknowledgedInsertReusesNumber(h: Digest, first: Entry, second: Entry)
    ensures var steps :=
              [Start(0, first), Read(0), Claim(0), InsertUnacknowledged(0), CheckHead(0), PutBack(0),
               Start(0, second), Read(0), Claim(0), Insert(0)];
            var table := Run(h, steps).table;
            && |table| == 2 && table[0].sequence == table[1].sequence == 1
            && table[0].entry == first && table[1].entry == second
  {
    var again := [Start(0, second), Read(0), Claim(0)] + [Insert(0)];
    var put := [CheckHead(0), PutBack(0)] + again;
    ClaimSteps(h, Initial, 0, first, [InsertUnacknowledged(0)] + put);
    var w1 := Claimed(h, Initial, 0, first);
    RunStep(h, w1, InsertUnacknowledged(0), put);
    var w2 := Do(h, w1, InsertUnacknowledged(0));
    PutBackSteps(h, w2, 0, again);
    var w3 := Returned(w2, 0);
    ClaimSteps(h, w3, 0, second, [Insert(0)]);
    var w4 := Claimed(h, w3, 0, second);
    RunStep(h, w4, Insert(0), []);
    assert [Insert(0)] + [] == [Insert(0)];
    assert [Start(0, first), Read(0), Claim(0), InsertUnacknowledged(0), CheckHead(0), PutBack(0),
            Start(0, second), Read(0), Claim(0), Insert(0)]
        == [Start(0, first), Read(0), Claim(0)] + ([InsertUnacknowledged(0)] + put);
  }

  // ---- One append, from beginning to end ----

  /** The record an append makes: the next number, linked to the head, hashed over all of it. */
  predicate IsNext(h: Digest, head: Head, entry: Entry, r: Record) {
    && r.sequence == head.sequence + 1 && r.entry == entry
    && r.prevHash == (if head.hash == [] then GenesisHash else head.hash)
    && r.hash == h(Content(r.prevHash, r.sequence, entry))
  }

  /** Undisturbed, an append leaves its record at the end of the table and the head at that record. */
  lemma AppendSucceeds(h: Digest, w: World, p: nat, entry: Entry) returns (r: Record)
    requires At(w, p).phase.Idle? && At(w, p).floor <= w.head.sequence
    ensures IsNext(h, w.head, entry, r)
    ensures var w' := RunFrom(h, w, [Start(p, entry), Read(p), Claim(p)] + ([Insert(p)] + []));
            && w'.table == w.table + [r] && w'.claims == w.claims + [r]
            && w'.head.sequence == r.sequence && w'.head.hash == r.hash
            && At(w', p) == Replica(Idle, r.sequence)
  {
    r := Seal(h, entry, AsRecord(w.head));
    ClaimSteps(h, w, p, entry, [Insert(p)] + []);
    RunStep(h, Claimed(h, w, p, entry), Insert(p), []);
  }

  /** One whose insert fails, and which is undisturbed, leaves the head and the table as they were. */
  lemma FailedAppendIsUndone(h: Digest, w: World, p: nat, entry: Entry)
    requires At(w, p).phase.Idle? && At(w, p).floor <= w.head.sequence
    ensures var w' := RunFrom(h, w, [Start(p, entry), Read(p), Claim(p)]
                                    + ([InsertFails(p)] + ([CheckHead(p), PutBack(p)] + [])));
            && w'.table == w.table && w'.claims == w.claims
            && w'.head.sequence == w.head.sequence && w'.head.hash == w.head.hash
            && At(w', p) == Replica(Idle, w.head.sequence)
  {
    var back := [CheckHead(p), PutBack(p)] + [];
    ClaimSteps(h, w, p, entry, [InsertFails(p)] + back);
    var claimed := Claimed(h, w, p, entry);
    RunStep(h, claimed, InsertFails(p), back);
    PutBackSteps(h, Do(h, claimed, InsertFails(p)), p, []);
  }

  /** One that finds another number claimed first reads again, with its record still to make. */
  lemma ConflictTriesAgain(h: Digest, w: World, p: nat)
    requires At(w, p).phase.Sealing? && At(w, p).phase.seen.version != w.head.version
    ensures var w' := Do(h, w, Claim(p));
            && w'.head == w.head && w'.table == w.table && w'.claims == w.claims
            && At(w', p) == Replica(Reading(At(w, p).phase.entry), At(w, p).floor)
  {
  }

  /** One that finds something appended on top of its number leaves that number spent. */
  lemma SpentNumberStands(h: Digest, w: World, p: nat)
    requires At(w, p).phase.Releasing?
    requires w.head.sequence != At(w, p).phase.sealed.sequence || w.head.hash != At(w, p).phase.sealed.hash
    ensures var w' := Do(h, w, CheckHead(p));
            && w'.head == w.head && w'.table == w.table && w'.claims == w.claims
            && At(w', p) == Replica(Idle, At(w, p).floor)
  {
  }
}
