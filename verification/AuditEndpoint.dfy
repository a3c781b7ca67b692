/**
 * The verification as it is asked for: a run of the log read in one page, whose length the caller
 * bounds and the store bounds again, compared with the anchor only when the page did not come back
 * full; and the walk over page after page that a full one asks for.
 */
module AuditEndpoint {
  import opened Common
  import opened AuditEncoding
  import opened AuditChain
  import opened AuditHead
  import opened AuditRuns
  import opened AuditPages

  /** What a scan reads when it is not told, and the most it ever reads. */
  const DefaultAuditLimit := 100
  const MaxAuditLimit := 1000

  function Clamp(limit: int): (n: nat)
    ensures 1 <= n <= MaxAuditLimit && (1 <= limit <= MaxAuditLimit ==> n == limit)
  {
    if limit < 1 then DefaultAuditLimit else if limit > MaxAuditLimit then MaxAuditLimit else limit
  }

  function Take(rows: seq<Record>, n: nat): seq<Record> {
    if |rows| > n then rows[..n] else rows
  }

  /** The store's answer: rows from a number on, in order, as many as it will give. */
  function Scan(rows: seq<Record>, from: int, limit: int): seq<Record> {
    Take(Above(rows, from - 1), Clamp(limit))
  }

  datatype Response = BadRequest | Answered(verification: Verification, truncated: bool)

  /** The row before the run, when the run does not start at the beginning. */
  function Preceding(rows: seq<Record>, from: int): Option<Record> {
    if from <= 1 then Some(Nothing)
    else
      var preceding := Scan(rows, from - 1, 1);
      if preceding == [] || preceding[0].sequence != from - 1 then None else Some(preceding[0])
  }

  /** The handler: `rows` is the table in order of sequence. */
  function Handle(h: Digest, rows: seq<Record>, anchor: Anchor, from: int, limit: int): Response {
    if from < 1 || limit < 1 then BadRequest
    else
      var previous := Preceding(rows, from);
      if previous.None? then BadRequest
      else
        var records := Scan(rows, from, limit);
        var partial := |records| >= limit;
        Answered(AgainstAnchor(Verified(h, records, previous.value), anchor, partial), partial)
  }

  // ---- One page against the chain ----

  /** A stretch of a sound chain is sound after what stands before it. */
  lemma SoundStretch(h: Digest, claims: seq<Record>, n: nat, k: nat)
    requires Sound(h, claims, Nothing) && forall content :: h(content) != []
    requires n + k <= |claims|
    ensures Sound(h, claims[n..n + k], Before(claims, n))
  {
    if n > 0 {
      SoundHashIsThere(h, claims, Nothing, n - 1);
      SoundTail(h, claims, n);
      SoundPrefix(h, claims[n..], claims[n - 1], k);
      assert claims[n..][..k] == claims[n..n + k];
    } else {
      SoundPrefix(h, claims, Nothing, k);
      assert claims[..k] == claims[n..n + k];
    }
  }

  lemma BeforeIsNumbered(h: Digest, claims: seq<Record>, n: nat)
    requires Sound(h, claims, Nothing) && n <= |claims|
    ensures Before(claims, n).sequence == n
  {
    if n > 0 {
      SoundRunsAreDense(h, claims, Nothing, n - 1);
    }
  }

  /** Rows of a chain, sound after its `n`th: they are the stretch that follows it. */
  lemma SoundPageIsAStretch(h: Digest, claims: seq<Record>, n: nat, page: seq<Record>)
    requires Sound(h, claims, Nothing) && forall content :: h(content) != []
    requires n <= |claims| && forall i :: 0 <= i < |page| ==> InPlace(claims, page[i])
    ensures Sound(h, page, Before(claims, n)) <==> n + |page| <= |claims| && page == claims[n..n + |page|]
  {
    var previous := Before(claims, n);
    BeforeIsNumbered(h, claims, n);
    if Sound(h, page, previous) {
      forall i | 0 <= i < |page| ensures page[i].sequence == n + 1 + i {
        SoundRunsAreDense(h, page, previous, i);
      }
      if page != [] {
        assert InPlace(claims, page[|page| - 1]);
      }
      StretchByNumber(claims, n, page);
    }
    if n + |page| <= |claims| && page == claims[n..n + |page|] {
      SoundStretch(h, claims, n, |page|);
    }
  }

  lemma StretchByNumber(claims: seq<Record>, n: nat, page: seq<Record>)
    requires n + |page| <= |claims|
    requires forall i :: 0 <= i < |page| ==> page[i].sequence == n + 1 + i && InPlace(claims, page[i])
    ensures page == claims[n..n + |page|]
  {
  }

  /** The verdict on one page, with the anchor compared or not. */
  lemma PageVerdict(h: Digest, claims: seq<Record>, n: nat, page: seq<Record>, anchor: Anchor, partial: bool)
    requires Sound(h, claims, Nothing) && forall content :: h(content) != []
    requires n <= |claims| && forall i :: 0 <= i < |page| ==> InPlace(claims, page[i])
    requires anchor.present && anchor.sequence == |claims|
    ensures AgainstAnchor(Verified(h, page, Before(claims, n)), anchor, partial).intact <==>
            if partial then n + |page| <= |claims| && page == claims[n..n + |page|]
            else page == claims[n..] && (n < |claims| || n == 0)
  {
    var previous := Before(claims, n);
    SoundPageIsAStretch(h, claims, n, page);
    if partial {
      IntactPage(h, page, previous, anchor);
    } else if page == [] {
      assert page == claims[n..] <==> n == |claims|;
    } else {
      BeforeIsNumbered(h, claims, n);
      NonEmptyPageIntact(h, page, previous, anchor);
      if Sound(h, page, previous) {
        SoundRunsAreDense(h, page, previous, |page| - 1);
      }
      WholeStretch(claims, n, page);
    }
  }

  lemma NonEmptyPageIntact(h: Digest, page: seq<Record>, previous: Record, anchor: Anchor)
    requires anchor.present && page != []
    ensures AgainstAnchor(Verified(h, page, previous), anchor, false).intact <==>
            Sound(h, page, previous) && page[|page| - 1].sequence == anchor.sequence
  {
    NoFindingsMeansSound(h, page, previous, |page|);
  }

  lemma WholeStretch(claims: seq<Record>, n: nat, page: seq<Record>)
    requires n <= |claims|
    ensures page == claims[n..] <==>
            n + |page| == |claims| && n + |page| <= |claims| && page == claims[n..n + |page|]
  {
    assert n + |page| == |claims| ==> claims[n..] == claims[n..n + |page|];
  }

  // ---- Rows in order ----

  predicate InOrder(rows: seq<Record>) {
    forall i, j :: 0 <= i < j < |rows| ==> rows[i].sequence < rows[j].sequence
  }

  lemma AboveSnoc(rows: seq<Record>, r: Record, n: int)
    ensures Above(rows + [r], n) == Above(rows, n) + if r.sequence > n then [r] else []
  {
    assert (rows + [r])[..|rows|] == rows;
  }

  lemma {:induction false} AboveConcat(a: seq<Record>, b: seq<Record>, n: int)
    ensures Above(a + b, n) == Above(a, n) + Above(b, n)
  {
    if b == [] {
      assert a + b == a;
    } else {
      var front, last := b[..|b| - 1], b[|b| - 1];
      AboveConcat(a, front, n);
      AboveSnoc(a + front, last, n);
      assert a + b == a + front + [last];
    }
  }

  lemma {:induction false} AboveAll(rows: seq<Record>, n: int)
    requires forall i :: 0 <= i < |rows| ==> rows[i].sequence > n
    ensures Above(rows, n) == rows
  {
    if rows != [] {
      AboveAll(rows[..|rows| - 1], n);
    }
  }

  lemma {:induction false} AboveNone(rows: seq<Record>, n: int)
    requires forall i :: 0 <= i < |rows| ==> rows[i].sequence <= n
    ensures Above(rows, n) == []
  {
    if rows != [] {
      AboveNone(rows[..|rows| - 1], n);
    }
  }

  lemma AboveSplit(rows: seq<Record>, k: nat, n: int)
    requires k <= |rows|
    requires forall i :: 0 <= i < k ==> rows[i].sequence <= n
    requires forall i :: k <= i < |rows| ==> rows[i].sequence > n
    ensures Above(rows, n) == rows[k..]
  {
    AboveBoth(rows[..k], rows[k..], n);
    assert rows == rows[..k] + rows[k..];
  }

  lemma AboveBoth(front: seq<Record>, rest: seq<Record>, n: int)
    requires forall i :: 0 <= i < |front| ==> front[i].sequence <= n
    requires forall i :: 0 <= i < |rest| ==> rest[i].sequence > n
    ensures Above(front + rest, n) == rest
  {
    AboveNone(front, n);
    AboveAll(rest, n);
    AboveConcat(front, rest, n);
  }

  /** In ordered rows, those numbered after `n` are the rows from some place on. */
  lemma AboveIsTheRest(rows: seq<Record>, n: int) returns (k: nat)
    requires InOrder(rows)
    ensures k <= |rows| && Above(rows, n) == rows[k..]
    ensures forall i :: 0 <= i < k ==> rows[i].sequence <= n
    ensures forall i :: k <= i < |rows| ==> rows[i].sequence > n
  {
    k := |rows|;
    while k > 0 && rows[k - 1].sequence > n
      invariant k <= |rows| && forall i :: k <= i < |rows| ==> rows[i].sequence > n
    {
      k := k - 1;
    }
    AboveSplit(rows, k, n);
  }

  /** The table read in order, in a world that runs lead to. */
  lemma ViewInOrder(w: World, rows: seq<Record>)
    requires RowsAreClaims(w) && OrderedView(rows, w.table)
    ensures InOrder(rows) && forall i :: 0 <= i < |rows| ==> InPlace(w.claims, rows[i])
    ensures forall r :: r in rows <==> r in w.table
  {
    ViewIsDistinct(rows, w.table);
    forall i | 0 <= i < |rows| ensures InPlace(w.claims, rows[i]) {
      assert rows[i] in w.table;
    }
  }

  ghost predicate RowsOf(claims: seq<Record>, rows: seq<Record>) {
    && (forall i :: 0 <= i < |claims| ==> claims[i].sequence == i + 1)
    && InOrder(rows) && forall i :: 0 <= i < |rows| ==> InPlace(claims, rows[i])
  }

  /** A run that starts after `n` is answered exactly when it starts the log or row `n` is there. */
  lemma PrecedingIsRowN(claims: seq<Record>, rows: seq<Record>, n: nat)
    requires RowsOf(claims, rows)
    ensures Preceding(rows, n + 1).Some? <==> n == 0 || (n <= |claims| && claims[n - 1] in rows)
    ensures Preceding(rows, n + 1).Some? ==> n <= |claims| && Preceding(rows, n + 1).value == Before(claims, n)
  {
    if n > 0 {
      FirstFromN(claims, rows, n);
    }
  }

  lemma FirstFromN(claims: seq<Record>, rows: seq<Record>, n: nat)
    requires RowsOf(claims, rows) && n > 0
    ensures var page := Scan(rows, n, 1);
            && (page != [] && page[0].sequence == n <==> n <= |claims| && claims[n - 1] in rows)
            && (page != [] && page[0].sequence == n ==> page[0] == claims[n - 1])
  {
    var k := AboveIsTheRest(rows, n - 1);
    RowIsClaim(claims, rows, n, k);
    if k < |rows| {
      assert Scan(rows, n, 1)[0] == rows[k];
    }
  }

  /** The first row from number `n` on is row `n` exactly when that is there. */
  lemma RowIsClaim(claims: seq<Record>, rows: seq<Record>, n: nat, k: nat)
    requires RowsOf(claims, rows) && n > 0 && k <= |rows|
    requires forall i :: 0 <= i < k ==> rows[i].sequence <= n - 1
    requires forall i :: k <= i < |rows| ==> rows[i].sequence > n - 1
    ensures k < |rows| && rows[k].sequence == n <==> n <= |claims| && claims[n - 1] in rows
    ensures k < |rows| && rows[k].sequence == n ==> rows[k] == claims[n - 1]
  {
    if k < |rows| {
      assert InPlace(claims, rows[k]);
    }
    if n <= |claims| && claims[n - 1] in rows {
      var i :| 0 <= i < |rows| && rows[i] == claims[n - 1];
      ClaimIsNumbered(claims, rows, n, i);
    }
  }

  lemma ClaimIsNumbered(claims: seq<Record>, rows: seq<Record>, n: nat, i: nat)
    requires RowsOf(claims, rows) && 0 < n <= |claims| && i < |rows| && rows[i] == claims[n - 1]
    ensures rows[i].sequence == n
  {
    assert InPlace(claims, rows[i]);
  }

  lemma ScanInPlace(claims: seq<Record>, rows: seq<Record>, n: nat, limit: int)
    requires RowsOf(claims, rows)
    ensures var page := Scan(rows, n + 1, limit);
            forall i :: 0 <= i < |page| ==> InPlace(claims, page[i])
  {
    var k := AboveIsTheRest(rows, n);
  }

  // ---- The answer ----

  /**
   * What the handler answers, for every log, start and limit. It refuses a run whose row before is
   * not there. Of any other it says intact, when the page came back full, exactly when the page is
   * the next stretch of the chain; and when it did not, exactly when the page is all of the rest,
   * and there is some rest or the log is empty.
   */
  lemma AnswerIsExact(h: Digest, claims: seq<Record>, rows: seq<Record>, anchor: Anchor, n: nat, limit: nat)
    requires Sound(h, claims, Nothing) && forall content :: h(content) != []
    requires RowsOf(claims, rows) && anchor.present && anchor.sequence == |claims| && limit > 0
    ensures Handle(h, rows, anchor, n + 1, limit).BadRequest? <==>
            n > 0 && (n > |claims| || claims[n - 1] !in rows)
    ensures var answer, page := Handle(h, rows, anchor, n + 1, limit), Scan(rows, n + 1, limit);
            answer.Answered? ==>
              && answer.truncated == (|page| >= limit)
              && (answer.verification.intact <==>
                    if answer.truncated then n + |page| <= |claims| && page == claims[n..n + |page|]
                    else page == claims[n..] && (n < |claims| || n == 0))
              && answer.verification.to == if page == [] then 0 else page[|page| - 1].sequence
  {
    PrecedingIsRowN(claims, rows, n);
    if Preceding(rows, n + 1).Some? {
      var page := Scan(rows, n + 1, limit);
      ScanInPlace(claims, rows, n, limit);
      PageVerdict(h, claims, n, page, anchor, |page| >= limit);
    }
  }

  /** The answer after every run of the appenders and the retention, for a run from the beginning. */
  lemma FirstPageIsExact(h: Digest, steps: seq<Step>, rows: seq<Record>, limit: nat)
    requires ReturnsNoRow(h, Initial, steps) && forall content :: h(content) != []
    requires OrderedView(rows, Run(h, steps).table) && limit > 0
    ensures var w := Run(h, steps);
            var answer := Handle(h, rows, AnchorOf(w.head), 1, limit);
            && answer.Answered?
            && (limit <= MaxAuditLimit && |rows| < limit ==> (answer.verification.intact <==> rows == w.claims))
            && (limit <= |rows| && limit <= MaxAuditLimit ==>
                  |rows| <= |w.claims| && (answer.verification.intact <==> rows[..limit] == w.claims[..limit]))
            && (limit > MaxAuditLimit && |rows| <= MaxAuditLimit ==> (answer.verification.intact <==> rows == w.claims))
            && (limit > MaxAuditLimit && |rows| > MaxAuditLimit ==> !answer.verification.intact)
            && (answer.truncated <==> limit <= |rows| && limit <= MaxAuditLimit)
  {
    var w := Run(h, steps);
    RunsKeepChain(h, Initial, steps);
    RunsKeepRows(h, Initial, steps);
    ViewIsOfChain(h, w, rows);
    FirstPageOfChain(h, w.claims, rows, AnchorOf(w.head), limit);
  }

  lemma ViewIsOfChain(h: Digest, w: World, rows: seq<Record>)
    requires Chain(h, w) && Rows(w) && OrderedView(rows, w.table) && forall content :: h(content) != []
    ensures Sound(h, w.claims, Nothing) && RowsOf(w.claims, rows)
  {
    LinkedIsSound(h, w.claims);
    ViewInOrder(w, rows);
    forall i | 0 <= i < |w.claims| ensures w.claims[i].sequence == i + 1 {
      SoundRunsAreDense(h, w.claims, Nothing, i);
    }
  }

  lemma FirstPageOfChain(h: Digest, claims: seq<Record>, rows: seq<Record>, anchor: Anchor, limit: nat)
    requires Sound(h, claims, Nothing) && forall content :: h(content) != []
    requires RowsOf(claims, rows) && anchor.present && anchor.sequence == |claims| && limit > 0
    ensures |rows| <= |claims|
    ensures var answer := Handle(h, rows, anchor, 1, limit);
            && answer.Answered?
            && (answer.truncated <==> limit <= |rows| && limit <= MaxAuditLimit)
            && (answer.verification.intact <==>
                  if answer.truncated then rows[..limit] == claims[..limit]
                  else |rows| <= MaxAuditLimit && rows == claims)
  {
    AnswerIsExact(h, claims, rows, anchor, 0, limit);
    RowsNotMore(claims, rows);
    FirstScan(claims, rows, limit);
  }

  lemma FirstScan(claims: seq<Record>, rows: seq<Record>, limit: nat)
    requires RowsOf(claims, rows) && |rows| <= |claims| && limit > 0
    ensures var page := Scan(rows, 1, limit);
            && (|page| >= limit <==> limit <= |rows| && limit <= MaxAuditLimit)
            && (|page| >= limit ==> |page| == limit && page == rows[..limit] && claims[0..0 + limit] == claims[..limit])
            && (|page| < limit ==> (page == claims[0..] <==> |rows| <= MaxAuditLimit && rows == claims))
  {
    AboveZero(claims, rows);
    TakeOfRows(claims, rows, Clamp(limit));
    Prefixes(claims, limit);
  }

  lemma TakeOfRows(claims: seq<Record>, rows: seq<Record>, n: nat)
    requires |rows| <= |claims|
    ensures |Take(rows, n)| == (if |rows| > n then n else |rows|)
    ensures n <= |rows| ==> Take(rows, n) == rows[..n]
    ensures |Take(rows, n)| < n ==> Take(rows, n) == rows
    ensures Take(rows, n) == claims <==> |rows| <= n && rows == claims
  {
  }

  lemma Prefixes(claims: seq<Record>, k: nat)
    ensures claims[0..] == claims
    ensures k <= |claims| ==> claims[0..0 + k] == claims[..k]
  {
  }

  lemma AboveZero(claims: seq<Record>, rows: seq<Record>)
    requires RowsOf(claims, rows)
    ensures Above(rows, 0) == rows
  {
    forall i | 0 <= i < |rows| ensures rows[i].sequence > 0 {
      assert InPlace(claims, rows[i]);
    }
    AboveAll(rows, 0);
  }

  lemma RowsNotMore(claims: seq<Record>, rows: seq<Record>)
    requires RowsOf(claims, rows)
    ensures |rows| <= |claims|
  {
    if |rows| > 0 {
      forall i | 0 <= i < |rows| ensures i < rows[i].sequence {
        NumberedAtLeast(claims, rows, i);
      }
      assert InPlace(claims, rows[|rows| - 1]);
    }
  }

  lemma {:induction false} NumberedAtLeast(claims: seq<Record>, rows: seq<Record>, i: nat)
    requires RowsOf(claims, rows) && i < |rows|
    ensures i < rows[i].sequence
  {
    assert InPlace(claims, rows[i]);
    if i > 0 {
      NumberedAtLeast(claims, rows, i - 1);
    }
  }
}
