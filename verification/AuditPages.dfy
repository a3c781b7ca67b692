/**
 * Verification while rows age out of the log: a log loses its oldest rows to its retention without
 * anybody having touched it, and a run that starts after a row still there is verified against it.
 */
module AuditPages {
  import opened Common
  import opened AuditEncoding
  import opened AuditChain
  import opened AuditHead
  import opened AuditRuns

  /** A log that verified does not once any of its rows is gone. */
  lemma ExpiryBreaksTheLog(h: Digest, w: World, at: nat, rows: seq<Record>)
    requires Chain(h, w) && Rows(w) && forall content :: h(content) != []
    requires at < |w.table| && OrderedView(rows, Do(h, w, Expire(at)).table)
    ensures !Intact(h, rows, AnchorOf(w.head))
  {
    StepKeepsChain(h, w, Expire(at));
    ExpireKeepsRows(w, at);
    ViewIsExact(h, Do(h, w, Expire(at)), rows);
    assert |w.table| <= |w.claims| by {
      AsManyAsClaims(h, w);
    }
  }

  lemma AsManyAsClaims(h: Digest, w: World)
    requires Chain(h, w) && Rows(w)
    ensures |w.table| <= |w.claims|
  {
    forall i, j | 0 <= i < j < |w.table| ensures w.table[i].sequence != w.table[j].sequence {
      assert InPlace(w.claims, w.table[i]) && InPlace(w.claims, w.table[j]);
    }
    forall r | r in w.table ensures 1 <= r.sequence <= |w.claims| {
      assert InPlace(w.claims, r);
    }
    NumbersFit(w.table, |w.claims|);
  }

  lemma {:induction false} NumbersFit(table: seq<Record>, n: nat)
    requires forall i, j :: 0 <= i < j < |table| ==> table[i].sequence != table[j].sequence
    requires forall r :: r in table ==> 1 <= r.sequence <= n
    ensures |table| <= n
  {
    if table != [] {
      assert table[0] in table;
      if i :| 0 <= i < |table| && table[i].sequence == n {
        NumbersFit(table[..i] + table[i + 1..], n - 1);
      } else {
        NumbersFit(table, n - 1);
      }
    }
  }

  /** What it reports once the first row is gone and another is left: the first missing, the next unlinked. */
  lemma ExpiredStartIsReported(h: Digest, w: World, rows: seq<Record>)
    requires Chain(h, w) && Rows(w) && OrderedView(rows, w.table)
    requires rows != [] && w.claims != [] && w.claims[0] !in w.table
    ensures var findings := Verified(h, rows, Nothing).findings;
            && |findings| > 0 && findings[0] == Finding(1, Missing)
            && (!EqualFold(rows[0].prevHash, GenesisHash) ==>
                  |findings| > 1 && findings[1] == Finding(rows[0].sequence, Unlinked))
  {
    assert rows[0] in multiset(w.table);
    assert InPlace(w.claims, rows[0]) && rows[0] != w.claims[0];
    LateStartIsReported(h, rows);
  }

  lemma LateStartIsReported(h: Digest, rows: seq<Record>)
    requires rows != [] && rows[0].sequence != 1
    ensures var findings := Verified(h, rows, Nothing).findings;
            && |findings| > 0 && findings[0] == Finding(1, Missing)
            && (!EqualFold(rows[0].prevHash, GenesisHash) ==>
                  |findings| > 1 && findings[1] == Finding(rows[0].sequence, Unlinked))
  {
    FindingsBegin(h, rows, Nothing, |rows|);
    var first := Judge(h, rows[0], 1, GenesisHash);
    assert FindingsAt(h, rows, Nothing, 0) == first;
    assert first[0] == Finding(1, Missing);
  }

  lemma {:induction false} FindingsBegin(h: Digest, records: seq<Record>, previous: Record, n: nat)
    requires 0 < n <= |records|
    ensures FindingsAt(h, records, previous, 0) <= FindingsUpTo(h, records, previous, n)
  {
    if n > 1 {
      FindingsBegin(h, records, previous, n - 1);
    } else {
      assert FindingsUpTo(h, records, previous, 0) == [];
    }
  }

  /** An honest log of one row, verified, and then verified again after its retention. */
  lemma HonestLogAgesOut(h: Digest, a: Entry)
    requires forall content :: h(content) != []
    ensures var steps := [Start(0, a), Read(0), Claim(0), Insert(0)];
            && Intact(h, Run(h, steps).table, AnchorOf(Run(h, steps).head))
            && Run(h, steps + [Expire(0)]).table == []
            && !Intact(h, [], AnchorOf(Run(h, steps + [Expire(0)]).head))
  {
    var claim := [Start(0, a), Read(0), Claim(0)];
    ClaimSteps(h, Initial, 0, a, [Insert(0)]);
    ClaimSteps(h, Initial, 0, a, [Insert(0)] + [Expire(0)]);
    var w := Claimed(h, Initial, 0, a);
    var w' := Do(h, w, Insert(0));
    RunStep(h, w, Insert(0), []);
    RunStep(h, w, Insert(0), [Expire(0)]);
    RunStep(h, w', Expire(0), []);
    assert [Insert(0)] + [] == [Insert(0)] && [Expire(0)] + [] == [Expire(0)];
    var steps := [Start(0, a), Read(0), Claim(0), Insert(0)];
    assert claim + [Insert(0)] == steps;
    assert claim + ([Insert(0)] + [Expire(0)]) == steps + [Expire(0)];
    assert w'.table == [Seal(h, a, Nothing)];
    OneRecordLogIsIntact(h, a, AnchorOf(w'.head));
  }

  // ---- Runs that start after a row ----

  /** The rows numbered after `n`. */
  function Above(table: seq<Record>, n: int): seq<Record> {
    if table == [] then []
    else Above(table[..|table| - 1], n) + if table[|table| - 1].sequence > n then [table[|table| - 1]] else []
  }

  lemma {:induction false} AboveIs(table: seq<Record>, n: int)
    ensures forall r :: r in Above(table, n) <==> r in table && r.sequence > n
    ensures Distinct(table) ==> Distinct(Above(table, n))
  {
    if table != [] {
      var front, last := table[..|table| - 1], table[|table| - 1];
      AboveIs(front, n);
      assert table == front + [last];
    }
  }

  /** Rows in place, in order and after `n`, sound from the `n`th claim: they are the claims from there. */
  lemma DensePageIsTheChain(rows: seq<Record>, claims: seq<Record>, n: nat)
    requires n <= |claims| && |rows| == |claims| - n
    requires forall i :: 0 <= i < |rows| ==> rows[i].sequence == n + 1 + i && InPlace(claims, rows[i])
    ensures rows == claims[n..]
  {
  }

  lemma SoundTail(h: Digest, claims: seq<Record>, n: nat)
    requires Sound(h, claims, Nothing) && 0 < n <= |claims| && claims[n - 1].hash != []
    ensures Sound(h, claims[n..], claims[n - 1])
  {
    var tail, previous := claims[n..], claims[n - 1];
    forall i | 0 <= i < |tail| ensures SoundAt(h, tail, previous, i) {
      assert SoundAt(h, claims, Nothing, n + i);
      assert tail[i] == claims[n + i];
      assert i > 0 ==> tail[i - 1] == claims[n + i - 1];
    }
  }

  /**
   * A run from `n + 1` to the end, read at once, with row `n` still there: it is intact exactly when there
   * is something after `n` and every number after it has its row, whatever has aged out before.
   */
  lemma PageIsExact(h: Digest, w: World, n: nat, page: seq<Record>)
    requires Chain(h, w) && Rows(w) && forall content :: h(content) != []
    requires 0 < n <= |w.claims| && w.claims[n - 1] in w.table
    requires OrderedView(page, Above(w.table, n))
    ensures AgainstAnchor(Verified(h, page, w.claims[n - 1]), AnchorOf(w.head), false).intact <==>
            n < w.head.sequence && page == w.claims[n..]
  {
    LinkedIsSound(h, w.claims);
    AboveIs(w.table, n);
    ViewIsDistinct(page, Above(w.table, n));
    forall i | 0 <= i < |page| ensures InPlace(w.claims, page[i]) {
      assert page[i] in page;
    }
    PageOfChainIsExact(h, w.claims, n, page, AnchorOf(w.head));
  }

  lemma PageOfChainIsExact(h: Digest, claims: seq<Record>, n: nat, page: seq<Record>, anchor: Anchor)
    requires Sound(h, claims, Nothing) && forall content :: h(content) != []
    requires 0 < n <= |claims|
    requires anchor.present && anchor.sequence == |claims|
    requires forall i :: 0 <= i < |page| ==> InPlace(claims, page[i])
    ensures AgainstAnchor(Verified(h, page, claims[n - 1]), anchor, false).intact <==>
            n < |claims| && page == claims[n..]
  {
    var previous := claims[n - 1];
    SoundRunsAreDense(h, claims, Nothing, n - 1);
    PageIntact(h, page, previous, anchor);
    if page != [] && Sound(h, page, previous) && page[|page| - 1].sequence == |claims| {
      forall i | 0 <= i < |page| ensures page[i].sequence == n + 1 + i {
        SoundRunsAreDense(h, page, previous, i);
      }
      DensePageIsTheChain(page, claims, n);
    }
    if n < |claims| && page == claims[n..] {
      SoundHashIsThere(h, claims, Nothing, n - 1);
      SoundTail(h, claims, n);
      SoundRunsAreDense(h, page, previous, |page| - 1);
    }
  }

  /** Nothing read is up to 0, so an anchor past 0 calls an empty run cut short. */
  lemma PageIntact(h: Digest, page: seq<Record>, previous: Record, anchor: Anchor)
    requires anchor.present && anchor.sequence > 0
    ensures AgainstAnchor(Verified(h, page, previous), anchor, false).intact <==>
            page != [] && Sound(h, page, previous) && page[|page| - 1].sequence == anchor.sequence
  {
    NoFindingsMeansSound(h, page, previous, |page|);
  }

  /** The same over every run of the appenders and the retention. */
  lemma PagesAreExactAfterEveryRun(h: Digest, steps: seq<Step>, n: nat, page: seq<Record>)
    requires ReturnsNoRow(h, Initial, steps) && forall content :: h(content) != []
    requires 0 < n <= |Run(h, steps).claims| && Run(h, steps).claims[n - 1] in Run(h, steps).table
    requires OrderedView(page, Above(Run(h, steps).table, n))
    ensures var w := Run(h, steps);
            AgainstAnchor(Verified(h, page, w.claims[n - 1]), AnchorOf(w.head), false).intact <==>
            n < w.head.sequence && page == w.claims[n..]
  {
    RunsKeepChain(h, Initial, steps);
    RunsKeepRows(h, Initial, steps);
    PageIsExact(h, Run(h, steps), n, page);
  }
}
