/** Verifying a log page after page, and what single pages of a long log answer. */
module AuditWalk {
  import opened Common
  import opened AuditEncoding
  import opened AuditChain
  import opened AuditHead
  import opened AuditRuns
  import opened AuditPages
  import opened AuditEndpoint

  lemma {:induction false} AboveShrinks(rows: seq<Record>, n: int, m: int, r: Record)
    requires n <= m
    ensures |Above(rows, m)| <= |Above(rows, n)|
    ensures r in rows && n < r.sequence <= m ==> |Above(rows, m)| < |Above(rows, n)|
  {
    if rows != [] {
      var front, last := rows[..|rows| - 1], rows[|rows| - 1];
      AboveShrinks(front, n, m, r);
      assert rows == front + [last];
    }
  }

  /** A full page has a last row, and fewer rows come after it. */
  lemma TruncatedGoesOn(h: Digest, rows: seq<Record>, anchor: Anchor, n: nat, limit: nat)
    requires var answer := Handle(h, rows, anchor, n + 1, limit); answer.Answered? && answer.truncated
    ensures var to := Handle(h, rows, anchor, n + 1, limit).verification.to;
            to > n && |Above(rows, to)| < |Above(rows, n)|
  {
    var page := Scan(rows, n + 1, limit);
    var last := page[|page| - 1];
    AboveIs(rows, n);
    assert last in Above(rows, n);
    AboveShrinks(rows, n, last.sequence, last);
  }

  /** An answer that says there is more names a row past the one it was asked from. */
  predicate GoesOn(answer: Response, rows: seq<Record>, n: nat) {
    answer.Answered? && answer.truncated ==>
      answer.verification.to > n && |Above(rows, answer.verification.to)| < |Above(rows, n)|
  }

  ghost predicate Advances(ask: nat -> Response, rows: seq<Record>) {
    forall n: nat :: GoesOn(ask(n), rows, n)
  }

  /** What a full page says to do: go on after its last row, until one does not come back full. */
  ghost predicate WalkIntact(ask: nat -> Response, rows: seq<Record>, n: nat)
    requires Advances(ask, rows)
    decreases |Above(rows, n)|
  {
    var answer := ask(n);
    assert GoesOn(answer, rows, n);
    && answer.Answered? && answer.verification.intact
    && (answer.truncated ==> WalkIntact(ask, rows, answer.verification.to))
  }

  /** The handler, asked for the run after a row. */
  function Ask(h: Digest, rows: seq<Record>, anchor: Anchor, limit: nat): nat -> Response {
    n => Handle(h, rows, anchor, n + 1, limit)
  }

  lemma AskAdvances(h: Digest, rows: seq<Record>, anchor: Anchor, limit: nat)
    ensures Advances(Ask(h, rows, anchor, limit), rows)
  {
    forall n: nat ensures GoesOn(Ask(h, rows, anchor, limit)(n), rows, n) {
      var answer := Handle(h, rows, anchor, n + 1, limit);
      if answer.Answered? && answer.truncated {
        TruncatedGoesOn(h, rows, anchor, n, limit);
      }
    }
  }

  /** A walk from the beginning finds every page intact. */
  ghost predicate Walk(h: Digest, rows: seq<Record>, anchor: Anchor, limit: nat) {
    AskAdvances(h, rows, anchor, limit);
    WalkIntact(Ask(h, rows, anchor, limit), rows, 0)
  }

  /** After a full page of ordered rows come the rows that were not on it. */
  lemma RestAfterPage(rows: seq<Record>, n: int, k: nat)
    requires InOrder(rows) && 0 < k <= |Above(rows, n)|
    ensures Above(rows, Above(rows, n)[k - 1].sequence) == Above(rows, n)[k..]
  {
    var start := AboveIsTheRest(rows, n);
    var m := rows[start + k - 1].sequence;
    forall i | 0 <= i < start + k ensures rows[i].sequence <= m {
    }
    AboveSplit(rows, start + k, m);
    assert rows[start..][k..] == rows[start + k..];
  }

  lemma PageThenRest(all: seq<Record>, claims: seq<Record>, n: nat, k: nat)
    requires n + k <= |claims| && k <= |all|
    ensures all == claims[n..] <==> all[..k] == claims[n..n + k] && all[k..] == claims[n + k..]
  {
    assert all == all[..k] + all[k..];
    assert claims[n..] == claims[n..n + k] + claims[n + k..];
  }

  lemma MultipleLess(k: int, limit: nat)
    requires limit > 0
    ensures (k - limit) % limit == k % limit
  {
    var q, r := k / limit, k % limit;
    assert k == q * limit + r;
    assert k - limit == (q - 1) * limit + r;
    Remainder(k - limit, q - 1, r, limit);
  }

  lemma Remainder(k: int, q: int, r: nat, limit: nat)
    requires k == q * limit + r && r < limit
    ensures k % limit == r
  {
    var p, s := k / limit, k % limit;
    assert (q - p) * limit == s - r;
    SmallMultiple(q - p, limit);
  }

  lemma SmallMultiple(d: int, limit: int)
    requires limit > 0 && -limit < d * limit < limit
    ensures d == 0
  {
    if d > 0 {
      MultipleAtLeast(d, limit);
    }
  }

  lemma {:induction false} MultipleAtLeast(a: nat, b: nat)
    requires a > 0
    ensures a * b >= b
  {
    if a > 1 {
      MultipleAtLeast(a - 1, b);
      assert a * b == (a - 1) * b + b;
    }
  }

  /** What a walk from after `n` should find: the rest is all there, and its last page is not a full one. */
  ghost predicate RestIsThere(claims: seq<Record>, rows: seq<Record>, n: nat, limit: nat)
    requires n <= |claims| && limit > 0
  {
    Above(rows, n) == claims[n..] && ((|claims| - n) % limit != 0 || |claims| == 0)
  }

  lemma LastPageIsThere(claims: seq<Record>, rows: seq<Record>, n: nat, limit: nat)
    requires n <= |claims| && |Above(rows, n)| < limit
    ensures RestIsThere(claims, rows, n, limit) <==> Above(rows, n) == claims[n..] && (n < |claims| || n == 0)
  {
    if Above(rows, n) == claims[n..] {
      assert |claims| - n < limit;
    }
  }

  lemma FullPageIsThere(claims: seq<Record>, rows: seq<Record>, n: nat, limit: nat)
    requires RowsOf(claims, rows) && n <= |claims| && 0 < limit <= |Above(rows, n)|
    ensures RestIsThere(claims, rows, n, limit) <==>
            && n + limit <= |claims| && Above(rows, n)[..limit] == claims[n..n + limit]
            && RestIsThere(claims, rows, n + limit, limit)
  {
    var all := Above(rows, n);
    if n + limit <= |claims| {
      PageThenRest(all, claims, n, limit);
      if all[..limit] == claims[n..n + limit] {
        FullPageEnds(claims, rows, n, limit);
        RestAfterPage(rows, n, limit);
        MultipleLess(|claims| - n, limit);
      }
    } else {
      assert |claims[n..]| < limit;
    }
  }

  predicate MayStart(claims: seq<Record>, rows: seq<Record>, n: nat) {
    n <= |claims| && (n == 0 || claims[n - 1] in rows)
  }

  /** An answer after `n` by a page the store can fill. */
  predicate RightAnswer(answer: Response, claims: seq<Record>, rows: seq<Record>, n: nat, limit: nat)
    requires n <= |claims|
  {
    var all := Above(rows, n);
    && answer.Answered? && (answer.truncated <==> limit <= |all|)
    && if answer.truncated then
         && (answer.verification.intact <==> n + limit <= |claims| && all[..limit] == claims[n..n + limit])
         && (answer.verification.intact ==> answer.verification.to == n + limit)
       else
         answer.verification.intact <==> all == claims[n..] && (n < |claims| || n == 0)
  }

  ghost predicate AnswersRight(ask: nat -> Response, claims: seq<Record>, rows: seq<Record>, limit: nat) {
    forall n: nat | MayStart(claims, rows, n) :: RightAnswer(ask(n), claims, rows, n, limit)
  }

  /** There is a full page after `n`, and it is the next stretch of the chain. */
  predicate PageIsRight(claims: seq<Record>, rows: seq<Record>, n: nat, limit: nat) {
    limit <= |Above(rows, n)| && n + limit <= |claims| && Above(rows, n)[..limit] == claims[n..n + limit]
  }

  lemma MayGoOn(claims: seq<Record>, rows: seq<Record>, n: nat, limit: nat)
    requires RowsOf(claims, rows) && limit > 0 && PageIsRight(claims, rows, n, limit)
    ensures MayStart(claims, rows, n + limit)
  {
    FullPageEnds(claims, rows, n, limit);
  }

  lemma {:induction false} WalkFromIsExact(
    ask: nat -> Response, claims: seq<Record>, rows: seq<Record>, n: nat, limit: nat)
    requires RowsOf(claims, rows) && limit > 0 && MayStart(claims, rows, n)
    requires Advances(ask, rows) && AnswersRight(ask, claims, rows, limit)
    ensures WalkIntact(ask, rows, n) <==> RestIsThere(claims, rows, n, limit)
    decreases |claims| - n
  {
    if PageIsRight(claims, rows, n, limit) {
      MayGoOn(claims, rows, n, limit);
      WalkFromIsExact(ask, claims, rows, n + limit, limit);
    }
    WalkOnePage(ask, claims, rows, n, limit);
  }

  /** One page, when the walk from after it is already known to be right. */
  lemma WalkOnePage(ask: nat -> Response, claims: seq<Record>, rows: seq<Record>, n: nat, limit: nat)
    requires RowsOf(claims, rows) && limit > 0 && MayStart(claims, rows, n)
    requires Advances(ask, rows) && AnswersRight(ask, claims, rows, limit)
    requires PageIsRight(claims, rows, n, limit) ==>
      n + limit <= |claims| && (WalkIntact(ask, rows, n + limit) <==> RestIsThere(claims, rows, n + limit, limit))
    ensures WalkIntact(ask, rows, n) <==> RestIsThere(claims, rows, n, limit)
  {
    assert RightAnswer(ask(n), claims, rows, n, limit);
    if |Above(rows, n)| < limit {
      WalkTheLastPage(ask, claims, rows, n, limit);
      LastPageIsThere(claims, rows, n, limit);
    } else {
      WalkAFullPage(ask, claims, rows, n, limit);
      FullPageIsThere(claims, rows, n, limit);
    }
  }

  lemma WalkTheLastPage(ask: nat -> Response, claims: seq<Record>, rows: seq<Record>, n: nat, limit: nat)
    requires Advances(ask, rows) && n <= |claims| && RightAnswer(ask(n), claims, rows, n, limit)
    requires |Above(rows, n)| < limit
    ensures WalkIntact(ask, rows, n) <==> Above(rows, n) == claims[n..] && (n < |claims| || n == 0)
  {
  }

  lemma WalkAFullPage(ask: nat -> Response, claims: seq<Record>, rows: seq<Record>, n: nat, limit: nat)
    requires Advances(ask, rows) && n <= |claims| && RightAnswer(ask(n), claims, rows, n, limit)
    requires |Above(rows, n)| >= limit
    ensures WalkIntact(ask, rows, n) <==>
            && n + limit <= |claims| && Above(rows, n)[..limit] == claims[n..n + limit]
            && WalkIntact(ask, rows, n + limit)
  {
  }

  lemma FullScan(claims: seq<Record>, rows: seq<Record>, n: nat, limit: nat)
    requires RowsOf(claims, rows) && 1 <= limit <= MaxAuditLimit && limit <= |Above(rows, n)|
    ensures var page := Scan(rows, n + 1, limit);
            && page == Above(rows, n)[..limit] && |page| == limit
            && (n + limit <= |claims| && page == claims[n..n + limit] ==> page[limit - 1].sequence == n + limit)
  {
    if n + limit <= |claims| && Above(rows, n)[..limit] == claims[n..n + limit] {
      FullPageEnds(claims, rows, n, limit);
    }
  }

  lemma HandlerAnswersRight(h: Digest, claims: seq<Record>, rows: seq<Record>, anchor: Anchor, n: nat, limit: nat)
    requires Sound(h, claims, Nothing) && forall content :: h(content) != []
    requires RowsOf(claims, rows) && anchor.present && anchor.sequence == |claims|
    requires 1 <= limit <= MaxAuditLimit && MayStart(claims, rows, n)
    ensures RightAnswer(Handle(h, rows, anchor, n + 1, limit), claims, rows, n, limit)
  {
    AnswerIsExact(h, claims, rows, anchor, n, limit);
    if limit <= |Above(rows, n)| {
      FullScan(claims, rows, n, limit);
    } else {
      assert Scan(rows, n + 1, limit) == Above(rows, n);
    }
  }

  lemma FullPageEnds(claims: seq<Record>, rows: seq<Record>, n: nat, k: nat)
    requires RowsOf(claims, rows) && 0 < k <= |Above(rows, n)| && n + k <= |claims|
    requires Above(rows, n)[..k] == claims[n..n + k]
    ensures Above(rows, n)[k - 1] == claims[n + k - 1] && claims[n + k - 1].sequence == n + k
    ensures claims[n + k - 1] in rows
  {
    AboveIs(rows, n);
    assert Above(rows, n)[..k][k - 1] == claims[n..n + k][k - 1];
    assert Above(rows, n)[k - 1] in Above(rows, n);
  }

  /**
   * After every run of the appenders and the retention, a walk from the beginning finds every page
   * intact exactly when every claimed number has its row and the last page is not a full one.
   */
  lemma WalkIsExact(h: Digest, steps: seq<Step>, rows: seq<Record>, limit: nat)
    requires ReturnsNoRow(h, Initial, steps) && forall content :: h(content) != []
    requires OrderedView(rows, Run(h, steps).table) && 1 <= limit <= MaxAuditLimit
    ensures var w := Run(h, steps);
            && (Walk(h, rows, AnchorOf(w.head), limit) <==>
                  rows == w.claims && (rows == [] || |rows| % limit != 0))
            && (rows == w.claims <==> |w.table| == w.head.sequence)
  {
    RunsKeepChain(h, Initial, steps);
    RunsKeepRows(h, Initial, steps);
    WalkOfWorld(h, Run(h, steps), rows, limit);
  }

  lemma WalkOfWorld(h: Digest, w: World, rows: seq<Record>, limit: nat)
    requires Chain(h, w) && Rows(w) && OrderedView(rows, w.table) && 1 <= limit <= MaxAuditLimit
    requires forall content :: h(content) != []
    ensures Walk(h, rows, AnchorOf(w.head), limit) <==> rows == w.claims && (rows == [] || |rows| % limit != 0)
    ensures rows == w.claims <==> |w.table| == w.head.sequence
  {
    ViewIsOfChain(h, w, rows);
    ViewIsExact(h, w, rows);
    WalkOfChain(h, w.claims, rows, AnchorOf(w.head), limit);
  }

  lemma WalkOfChain(h: Digest, claims: seq<Record>, rows: seq<Record>, anchor: Anchor, limit: nat)
    requires Sound(h, claims, Nothing) && forall content :: h(content) != []
    requires RowsOf(claims, rows) && anchor.present && anchor.sequence == |claims| && 1 <= limit <= MaxAuditLimit
    ensures Walk(h, rows, anchor, limit) <==> rows == claims && (rows == [] || |rows| % limit != 0)
  {
    var ask := Ask(h, rows, anchor, limit);
    AskAdvances(h, rows, anchor, limit);
    forall n: nat | MayStart(claims, rows, n) ensures RightAnswer(ask(n), claims, rows, n, limit) {
      HandlerAnswersRight(h, claims, rows, anchor, n, limit);
    }
    AboveZero(claims, rows);
    FromTheFirst(claims);
    WalkFromIsExact(ask, claims, rows, 0, limit);
  }

  lemma FromTheFirst(claims: seq<Record>)
    ensures claims[0..] == claims
  {
  }

  // ---- Single answers that are not what they seem ----

  /** The page after the last row is empty, and the log is called cut off from the start. */
  lemma PageAfterTheEndIsCalledTruncated(h: Digest, claims: seq<Record>, anchor: Anchor, limit: nat)
    requires Sound(h, claims, Nothing) && forall content :: h(content) != []
    requires RowsOf(claims, claims) && anchor.present && anchor.sequence == |claims|
    requires claims != [] && limit > 0
    ensures var answer := Handle(h, claims, anchor, |claims| + 1, limit);
            answer.Answered? && !answer.truncated && answer.verification.findings == [Finding(1, Truncated)]
  {
    var n := |claims|;
    PrecedingIsRowN(claims, claims, n);
    assert claims[n - 1] in claims;
    AboveNone(claims, n);
    assert Scan(claims, n + 1, limit) == [];
  }

  /** Asked for more than the store gives, a long log with every row is called cut off where the page ends. */
  lemma LongLogIsCalledTruncated(h: Digest, claims: seq<Record>, anchor: Anchor, limit: nat)
    requires Sound(h, claims, Nothing) && forall content :: h(content) != []
    requires RowsOf(claims, claims) && anchor.present && anchor.sequence == |claims|
    requires |claims| > MaxAuditLimit && limit > MaxAuditLimit
    ensures var answer := Handle(h, claims, anchor, 1, limit);
            && answer.Answered? && !answer.truncated
            && answer.verification.findings == [Finding(MaxAuditLimit + 1, Truncated)]
  {
    AboveZero(claims, claims);
    SoundPrefix(h, claims, Nothing, MaxAuditLimit);
    LongScan(claims, limit);
    CutShort(h, claims[..MaxAuditLimit], anchor);
  }

  lemma LongScan(claims: seq<Record>, limit: nat)
    requires Above(claims, 0) == claims && |claims| > MaxAuditLimit && limit > MaxAuditLimit
    ensures Scan(claims, 1, limit) == claims[..MaxAuditLimit]
  {
  }

  lemma CutShort(h: Digest, page: seq<Record>, anchor: Anchor)
    requires Sound(h, page, Nothing) && page != []
    requires anchor.present && anchor.sequence > page[|page| - 1].sequence
    ensures AgainstAnchor(Verified(h, page, Nothing), anchor, false).findings
         == [Finding(page[|page| - 1].sequence + 1, Truncated)]
  {
    NoFindingsMeansSound(h, page, Nothing, |page|);
  }

  /** A full first page is called intact whatever has become of the numbers after it. */
  lemma FullPageHidesWhatFollows(h: Digest, claims: seq<Record>, rows: seq<Record>, anchor: Anchor, limit: nat)
    requires Sound(h, claims, Nothing) && forall content :: h(content) != []
    requires RowsOf(claims, rows) && anchor.present && anchor.sequence == |claims|
    requires 1 <= limit <= MaxAuditLimit && limit <= |claims| && claims[..limit] <= rows
    ensures var answer := Handle(h, rows, anchor, 1, limit);
            answer.Answered? && answer.truncated && answer.verification.intact
  {
    FirstPageOfChain(h, claims, rows, anchor, limit);
  }

  /** One replica appending one entry after another. */
  function Appends(entries: seq<Entry>): seq<Step> {
    if entries == [] then []
    else
      var n := |entries| - 1;
      Appends(entries[..n]) + [Start(0, entries[n]), Read(0), Claim(0), Insert(0)]
  }

  lemma {:induction false} AppendsAreHonest(entries: seq<Entry>)
    ensures AllHonest(Appends(entries))
  {
    if entries != [] {
      AppendsAreHonest(entries[..|entries| - 1]);
    }
  }

  lemma {:induction false} AppendsFill(h: Digest, entries: seq<Entry>)
    ensures var w := Run(h, Appends(entries));
            && At(w, 0).phase.Idle? && At(w, 0).floor <= w.head.sequence
            && w.table == w.claims && |w.claims| == |entries|
  {
    if entries != [] {
      var n := |entries| - 1;
      AppendsFill(h, entries[..n]);
      RunConcat(h, Initial, Appends(entries[..n]), [Start(0, entries[n]), Read(0), Claim(0), Insert(0)]);
      var r := AppendSucceeds(h, Run(h, Appends(entries[..n])), 0, entries[n]);
      assert [Start(0, entries[n]), Read(0), Claim(0)] + ([Insert(0)] + [])
          == [Start(0, entries[n]), Read(0), Claim(0), Insert(0)];
    }
  }

  /** A run that claims one number more than it inserts rows: a replica dies before its insert. */
  function LastRowLost(entries: seq<Entry>, last: Entry): seq<Step> {
    Appends(entries) + [Start(0, last), Read(0), Claim(0), Crash(0)]
  }

  lemma LastRowIsLost(h: Digest, entries: seq<Entry>, last: Entry)
    ensures AllHonest(LastRowLost(entries, last))
    ensures var w := Run(h, LastRowLost(entries, last));
            |w.claims| == |entries| + 1 && w.table == w.claims[..|entries|]
  {
    AppendsAreHonest(entries);
    AppendsFill(h, entries);
    var w := Run(h, Appends(entries));
    RunConcat(h, Initial, Appends(entries), [Start(0, last), Read(0), Claim(0), Crash(0)]);
    ClaimSteps(h, w, 0, last, [Crash(0)]);
    RunStep(h, Claimed(h, w, 0, last), Crash(0), []);
    assert [Start(0, last), Read(0), Claim(0)] + [Crash(0)] == [Start(0, last), Read(0), Claim(0), Crash(0)];
    assert [Crash(0)] + [] == [Crash(0)];
  }

  /**
   * From an empty log: a thousand rows and a number after them without one. The verification with
   * no parameters answers intact and leaves the rest to the next page.
   */
  lemma LostRowAfterAFullPage(h: Digest, entries: seq<Entry>, last: Entry)
    requires |entries| == MaxAuditLimit && forall content :: h(content) != []
    ensures var w := Run(h, LastRowLost(entries, last));
            var answer := Handle(h, w.table, AnchorOf(w.head), 1, MaxAuditLimit);
            && w.head.sequence == MaxAuditLimit + 1 && |w.table| == MaxAuditLimit
            && answer.Answered? && answer.truncated && answer.verification.intact
            && !Walk(h, w.table, AnchorOf(w.head), MaxAuditLimit)
  {
    LastRowIsLost(h, entries, last);
    Reached(h, LastRowLost(entries, last));
    LostRowIsHidden(h, Run(h, LastRowLost(entries, last)));
  }

  lemma Reached(h: Digest, steps: seq<Step>)
    requires AllHonest(steps)
    ensures Chain(h, Run(h, steps)) && Rows(Run(h, steps))
  {
    HonestRunsReturnNoRow(h, Initial, steps);
    RunsKeepChain(h, Initial, steps);
    RunsKeepRows(h, Initial, steps);
  }

  lemma LostRowIsHidden(h: Digest, w: World)
    requires Chain(h, w) && Rows(w) && forall content :: h(content) != []
    requires |w.claims| == MaxAuditLimit + 1 && w.table == w.claims[..MaxAuditLimit]
    ensures var answer := Handle(h, w.table, AnchorOf(w.head), 1, MaxAuditLimit);
            answer.Answered? && answer.truncated && answer.verification.intact
    ensures !Walk(h, w.table, AnchorOf(w.head), MaxAuditLimit)
  {
    TableInOrder(h, w);
    ViewIsOfChain(h, w, w.table);
    FullPageHidesWhatFollows(h, w.claims, w.table, AnchorOf(w.head), MaxAuditLimit);
    WalkOfWorld(h, w, w.table, MaxAuditLimit);
  }

  lemma TableInOrder(h: Digest, w: World)
    requires Chain(h, w) && Rows(w) && w.table <= w.claims && forall content :: h(content) != []
    ensures OrderedView(w.table, w.table)
  {
    LinkedIsSound(h, w.claims);
    forall i | 0 <= i < |w.table| ensures w.table[i].sequence == i + 1 {
      SoundRunsAreDense(h, w.claims, Nothing, i);
    }
  }

  /** And a thousand and one rows, every one there, with a limit past the ceiling: called cut off. */
  lemma WholeLongLogIsRefused(h: Digest, entries: seq<Entry>, limit: nat)
    requires |entries| > MaxAuditLimit && limit > MaxAuditLimit && forall content :: h(content) != []
    ensures var w := Run(h, Appends(entries));
            var answer := Handle(h, w.table, AnchorOf(w.head), 1, limit);
            && w.table == w.claims
            && answer.Answered? && answer.verification.findings == [Finding(MaxAuditLimit + 1, Truncated)]
  {
    AppendsFill(h, entries);
    AppendsAreHonest(entries);
    Reached(h, Appends(entries));
    WholeLogIsCalledTruncated(h, Run(h, Appends(entries)), limit);
  }

  lemma WholeLogIsCalledTruncated(h: Digest, w: World, limit: nat)
    requires Chain(h, w) && Rows(w) && forall content :: h(content) != []
    requires w.table == w.claims && |w.claims| > MaxAuditLimit && limit > MaxAuditLimit
    ensures var answer := Handle(h, w.table, AnchorOf(w.head), 1, limit);
            answer.Answered? && answer.verification.findings == [Finding(MaxAuditLimit + 1, Truncated)]
  {
    TableInOrder(h, w);
    ViewIsOfChain(h, w, w.table);
    LongLogIsCalledTruncated(h, w.claims, AnchorOf(w.head), limit);
  }
}
