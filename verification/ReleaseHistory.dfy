/** An environment's release history: a log of ten stints that two writers report the same moves to. */
module ReleaseHistory {
  import opened Common

  const MaxReleaseHistory := 10

  datatype Reason = Promoted | RolledBack | Superseded

  /** A stint that ended: which release, from when to when, and how. Times are milliseconds. */
  datatype Entry = Entry(release: string, from: int, to: int, reason: Reason, who: string)

  /** One writer saying at a moment that the environment moves off a release. */
  datatype Report = Report(outgoing: string, reason: Reason, who: string, now: int)

  class Environment {
    const creationTimestamp: int
    var history: seq<Entry>

    constructor (creationTimestamp: int)
      ensures this.creationTimestamp == creationTimestamp && history == []
    {
      this.creationTimestamp := creationTimestamp;
      history := [];
    }

    method RecordReleaseMove(outgoing: string, reason: Reason, who: string, now: int) returns (recorded: bool)
      modifies this`history
      ensures history == Recorded(creationTimestamp, old(history), Report(outgoing, reason, who, now))
      ensures recorded <==> history != old(history)
      ensures |old(history)| <= MaxReleaseHistory ==> |history| <= MaxReleaseHistory
    {
      if outgoing == "" {
        return false;
      }
      var log := history;
      if |log| > 0 && log[0].release == outgoing {
        return false;
      }
      var from := creationTimestamp;
      if |log| > 0 {
        from := log[0].to;
      }
      log := [Entry(outgoing, from, now, reason, who)] + log;
      if |log| > MaxReleaseHistory {
        log := log[..MaxReleaseHistory];
      }
      assert |log| > 0 && log[0].release == outgoing;
      history := log;
      return true;
    }
  }

  /** The newest ten. */
  function Newest(log: seq<Entry>): seq<Entry> {
    if |log| > MaxReleaseHistory then log[..MaxReleaseHistory] else log
  }

  predicate Closes(log: seq<Entry>, report: Report) {
    report.outgoing != "" && (log == [] || log[0].release != report.outgoing)
  }

  /** A report that closes no stint leaves the history as it is; one that does is cut to ten. */
  function Recorded(created: int, log: seq<Entry>, report: Report): seq<Entry> {
    if Closes(log, report)
    then Newest([Entry(report.outgoing, if log == [] then created else log[0].to, report.now, report.reason, report.who)]
                + log)
    else log
  }

  /** The history after a sequence of reports, oldest first. */
  function History(created: int, reports: seq<Report>): seq<Entry> {
    if reports == [] then []
    else Recorded(created, History(created, reports[..|reports| - 1]), reports[|reports| - 1])
  }

  function EntryOf(move: Report, from: int): Entry {
    Entry(move.outgoing, from, move.now, move.reason, move.who)
  }

  /** When the stint a move ended began: at the move before it, or at creation. */
  function Start(created: int, moves: seq<Report>, k: nat): int
    requires k < |moves|
  {
    if k == 0 then created else moves[k - 1].now
  }

  /** The log one writer would keep that is told of every real move once and forgets nothing. */
  function Log(created: int, moves: seq<Report>): seq<Entry> {
    if moves == [] then []
    else
      var n := |moves| - 1;
      [EntryOf(moves[n], Start(created, moves, n))]
      + Log(created, moves[..n])
  }

  /** The reports that are news: not empty, and not of the release the one before was about. */
  function News(reports: seq<Report>): seq<Report> {
    if reports == [] then []
    else
      var rest, last := News(reports[..|reports| - 1]), reports[|reports| - 1];
      if last.outgoing == "" || (rest != [] && rest[|rest| - 1].outgoing == last.outgoing) then rest else rest + [last]
  }

  lemma LogSnoc(created: int, moves: seq<Report>, move: Report)
    ensures Log(created, moves + [move]) ==
      [Entry(move.outgoing, if moves == [] then created else moves[|moves| - 1].now, move.now, move.reason, move.who)]
      + Log(created, moves)
  {
    assert (moves + [move])[..|moves|] == moves;
  }

  lemma {:induction false} LogIsNewestFirst(created: int, moves: seq<Report>, i: nat)
    requires i < |moves|
    ensures |Log(created, moves)| == |moves|
    ensures var k := |moves| - 1 - i;
            Log(created, moves)[i] == EntryOf(moves[k], Start(created, moves, k))
  {
    if i > 0 {
      LogIsNewestFirst(created, moves[..|moves| - 1], i - 1);
    } else if |moves| > 1 {
      LogIsNewestFirst(created, moves[..|moves| - 1], 0);
    }
  }

  lemma LogLength(created: int, moves: seq<Report>)
    ensures |Log(created, moves)| == |moves|
  {
    if moves != [] {
      LogIsNewestFirst(created, moves, 0);
    }
  }

  /**
   * For every sequence of reports whatever, the history is the newest ten entries of the single
   * writer's log of what was news in it: cutting the log never changes what is recorded next.
   */
  lemma {:induction false} HistoryIsNewestOfLog(created: int, reports: seq<Report>)
    ensures History(created, reports) == Newest(Log(created, News(reports)))
  {
    if reports != [] {
      var front, last := reports[..|reports| - 1], reports[|reports| - 1];
      HistoryIsNewestOfLog(created, front);
      var news := News(front);
      LogLength(created, news);
      if news != [] {
        LogIsNewestFirst(created, news, 0);
      }
      CutRecordsAlike(created, Log(created, news), last);
      if News(reports) != news {
        LogSnoc(created, news, last);
      }
    }
  }

  /** What the log looks like past its tenth entry plays no part in what is recorded next. */
  lemma CutRecordsAlike(created: int, log: seq<Entry>, report: Report)
    ensures Recorded(created, Newest(log), report) == Newest(
              if Closes(log, report)
              then [EntryOf(report, if log == [] then created else log[0].to)] + log else log)
  {
  }

  /** A real move and how it was reported: at least once, by whichever writers, before the next one. */
  datatype Move = Move(first: Report, repeats: seq<Report>)

  ghost predicate Reported(moves: seq<Move>) {
    && (forall i :: 0 <= i < |moves| ==> moves[i].first.outgoing != "")
    && (forall i, r :: 0 <= i < |moves| && r in moves[i].repeats ==> r.outgoing in {"", moves[i].first.outgoing})
    && (forall i :: 0 < i < |moves| ==> moves[i - 1].first.outgoing != moves[i].first.outgoing)
  }

  function AllReports(moves: seq<Move>): seq<Report> {
    if moves == [] then []
    else AllReports(moves[..|moves| - 1]) + [moves[|moves| - 1].first] + moves[|moves| - 1].repeats
  }

  function Firsts(moves: seq<Move>): seq<Report> {
    seq(|moves|, i requires 0 <= i < |moves| => moves[i].first)
  }

  lemma {:induction false} RepeatsAreNoNews(reports: seq<Report>, repeats: seq<Report>, outgoing: string)
    requires News(reports) != [] && News(reports)[|News(reports)| - 1].outgoing == outgoing
    requires forall r :: r in repeats ==> r.outgoing in {"", outgoing}
    ensures News(reports + repeats) == News(reports)
  {
    if repeats == [] {
      assert reports + repeats == reports;
    } else {
      var front := repeats[..|repeats| - 1];
      assert (reports + repeats)[..|reports + repeats| - 1] == reports + front;
      RepeatsAreNoNews(reports, front, outgoing);
    }
  }

  lemma {:induction false} NewsOfReportedMoves(moves: seq<Move>)
    requires Reported(moves)
    ensures News(AllReports(moves)) == Firsts(moves)
  {
    if moves != [] {
      var front, last := moves[..|moves| - 1], moves[|moves| - 1];
      ReportedFront(moves);
      NewsOfReportedMoves(front);
      FirstsSnoc(moves);
      assert AllReports(moves) == AllReports(front) + [last.first] + last.repeats;
      NewsOfOneMove(AllReports(front), last);
    }
  }

  lemma FirstsSnoc(moves: seq<Move>)
    requires moves != []
    ensures Firsts(moves) == Firsts(moves[..|moves| - 1]) + [moves[|moves| - 1].first]
  {
  }

  lemma NewsOfOneMove(reports: seq<Report>, move: Move)
    requires move.first.outgoing != "" && forall r :: r in move.repeats ==> r.outgoing in {"", move.first.outgoing}
    requires News(reports) != [] ==> News(reports)[|News(reports)| - 1].outgoing != move.first.outgoing
    ensures News(reports + [move.first] + move.repeats) == News(reports) + [move.first]
  {
    NewsSnoc(reports, move.first);
    RepeatsAreNoNews(reports + [move.first], move.repeats, move.first.outgoing);
  }

  lemma ReportedFront(moves: seq<Move>)
    requires Reported(moves) && moves != []
    ensures var front, last := moves[..|moves| - 1], moves[|moves| - 1];
            && Reported(front) && last.first.outgoing != ""
            && (forall r :: r in last.repeats ==> r.outgoing in {"", last.first.outgoing})
            && (front != [] ==> Firsts(front)[|front| - 1].outgoing != last.first.outgoing)
  {
    var front := moves[..|moves| - 1];
    assert forall i :: 0 <= i < |front| ==> front[i] == moves[i];
  }

  lemma NewsSnoc(reports: seq<Report>, last: Report)
    requires last.outgoing != ""
    requires News(reports) != [] ==> News(reports)[|News(reports)| - 1].outgoing != last.outgoing
    ensures News(reports + [last]) == News(reports) + [last]
  {
    assert (reports + [last])[..|reports|] == reports;
  }

  /**
   * Two writers are as good as one: if every real move is reported, however often, before the next
   * one is, the history is the newest ten of the single writer's log of the moves.
   */
  lemma HistoryOfReportedMoves(created: int, moves: seq<Move>)
    requires Reported(moves)
    ensures History(created, AllReports(moves)) == Newest(Log(created, Firsts(moves)))
    ensures |History(created, AllReports(moves))| == if |moves| > MaxReleaseHistory then MaxReleaseHistory else |moves|
  {
    NewsOfReportedMoves(moves);
    HistoryIsNewestOfLog(created, AllReports(moves));
    LogLength(created, Firsts(moves));
  }

  /** Not so when a writer is late: the reconciler's report of the first move makes a stint of its own. */
  lemma LateReportInventsAStint(created: int, a: Report, b: Report, late: Report)
    requires a.outgoing != "" && b.outgoing != "" && a.outgoing != b.outgoing && late.outgoing == a.outgoing
    ensures History(created, [a, b, late]) != Newest(Log(created, [a, b]))
    ensures |History(created, [a, b, late])| == 3
  {
    HistoryIsNewestOfLog(created, [a, b, late]);
    assert [a, b, late][..2] == [a, b] && [a, b][..1] == [a] && [a][..0] == [];
    assert News([a]) == [a] && News([a, b]) == [a, b] && News([a, b, late]) == [a, b, late];
    LogLength(created, [a, b, late]);
    LogLength(created, [a, b]);
  }

  /** The newest ten moves, oldest first. */
  function Recent(moves: seq<Report>): seq<Report> {
    if |moves| > MaxReleaseHistory then moves[|moves| - MaxReleaseHistory..] else moves
  }

  /** When the oldest of them began: at the move before it, or at creation. */
  function Since(created: int, moves: seq<Report>): int {
    if |moves| > MaxReleaseHistory then moves[|moves| - MaxReleaseHistory - 1].now else created
  }

  /** When the move at `k` of the newest ten began. */
  function Began(created: int, moves: seq<Report>, k: nat): int
    requires k < |Recent(moves)|
  {
    if k == 0 then Since(created, moves) else Recent(moves)[k - 1].now
  }

  lemma NewestAt(created: int, moves: seq<Report>, k: nat)
    requires k < |Recent(moves)|
    ensures |Newest(Log(created, moves))| == |Recent(moves)|
    ensures Newest(Log(created, moves))[|Recent(moves)| - 1 - k] == EntryOf(Recent(moves)[k], Began(created, moves, k))
  {
    var m := |moves| - |Recent(moves)| + k;
    LogOf(created, moves, m);
    CutAt(created, moves, k, m, Log(created, moves));
  }

  lemma LogOf(created: int, moves: seq<Report>, m: nat)
    requires m < |moves|
    ensures |Log(created, moves)| == |moves|
    ensures Log(created, moves)[|moves| - 1 - m] == EntryOf(moves[m], Start(created, moves, m))
  {
    LogIsNewestFirst(created, moves, |moves| - 1 - m);
  }

  lemma CutAt(created: int, moves: seq<Report>, k: nat, m: nat, log: seq<Entry>)
    requires k < |Recent(moves)| && m == |moves| - |Recent(moves)| + k && |log| == |moves|
    requires log[|moves| - 1 - m] == EntryOf(moves[m], Start(created, moves, m))
    ensures |Newest(log)| == |Recent(moves)|
    ensures Newest(log)[|Recent(moves)| - 1 - k] == EntryOf(Recent(moves)[k], Began(created, moves, k))
  {
    assert Recent(moves)[k] == moves[m];
    assert k > 0 ==> Recent(moves)[k - 1] == moves[m - 1];
  }

  /** Two sequences of moves leave one history exactly when their newest ten are the same and began together. */
  lemma SameHistoryExactlyWhen(created: int, a: seq<Report>, b: seq<Report>)
    ensures Newest(Log(created, a)) == Newest(Log(created, b)) <==>
            Recent(a) == Recent(b) && (Recent(a) == [] || Since(created, a) == Since(created, b))
  {
    if Newest(Log(created, a)) == Newest(Log(created, b)) {
      SameHistorySameMoves(created, a, b);
    }
    if Recent(a) == Recent(b) && (Recent(a) == [] || Since(created, a) == Since(created, b)) {
      SameMovesSameHistory(created, a, b);
    }
  }

  lemma HistoryLength(created: int, moves: seq<Report>)
    ensures |Newest(Log(created, moves))| == |Recent(moves)|
  {
    LogLength(created, moves);
  }

  lemma SameHistorySameMoves(created: int, a: seq<Report>, b: seq<Report>)
    requires Newest(Log(created, a)) == Newest(Log(created, b))
    ensures Recent(a) == Recent(b) && (Recent(a) == [] || Since(created, a) == Since(created, b))
  {
    HistoryLength(created, a);
    HistoryLength(created, b);
    forall k | 0 <= k < |Recent(a)| ensures Recent(a)[k] == Recent(b)[k] {
      SameMoveAt(created, a, b, k);
    }
    if Recent(a) != [] {
      SameMoveAt(created, a, b, 0);
    }
  }

  lemma SameMoveAt(created: int, a: seq<Report>, b: seq<Report>, k: nat)
    requires Newest(Log(created, a)) == Newest(Log(created, b))
    requires |Recent(a)| == |Recent(b)| && k < |Recent(a)|
    ensures Recent(a)[k] == Recent(b)[k] && Began(created, a, k) == Began(created, b, k)
  {
    NewestAt(created, a, k);
    NewestAt(created, b, k);
  }

  lemma SameMovesSameHistory(created: int, a: seq<Report>, b: seq<Report>)
    requires Recent(a) == Recent(b) && (Recent(a) == [] || Since(created, a) == Since(created, b))
    ensures Newest(Log(created, a)) == Newest(Log(created, b))
  {
    HistoryLength(created, a);
    HistoryLength(created, b);
    forall i | 0 <= i < |Recent(a)| ensures Newest(Log(created, a))[i] == Newest(Log(created, b))[i] {
      var k := |Recent(a)| - 1 - i;
      NewestAt(created, a, k);
      NewestAt(created, b, k);
      assert Began(created, a, k) == Began(created, b, k);
    }
  }

  /**
   * Whatever is reported, by whom and how late, the history is the newest ten of the real moves
   * exactly when the newest ten of what was news are the newest ten real moves and began when they
   * did. With fewer than ten moves, that is when the news is the moves.
   */
  lemma HistoryIsRightExactlyWhen(created: int, reports: seq<Report>, moves: seq<Report>)
    ensures History(created, reports) == Newest(Log(created, moves)) <==>
            && Recent(News(reports)) == Recent(moves)
            && (Recent(moves) == [] || Since(created, News(reports)) == Since(created, moves))
    ensures |moves| < MaxReleaseHistory ==>
              (History(created, reports) == Newest(Log(created, moves)) <==> News(reports) == moves)
  {
    HistoryIsNewestOfLog(created, reports);
    SameHistoryExactlyWhen(created, News(reports), moves);
  }

  predicate NonDecreasing(created: int, reports: seq<Report>) {
    && (forall i :: 0 <= i < |reports| ==> created <= reports[i].now)
    && forall i, j :: 0 <= i < j < |reports| ==> reports[i].now <= reports[j].now
  }

  /** Neighbours name different releases, and each stint begins where the next older one ended. */
  predicate Contiguous(log: seq<Entry>) {
    && (forall i :: 0 <= i < |log| ==> log[i].release != "")
    && forall i :: 0 <= i < |log| - 1 ==> log[i].release != log[i + 1].release && log[i].from == log[i + 1].to
  }

  predicate RunsForward(log: seq<Entry>) {
    forall i :: 0 <= i < |log| ==> log[i].from <= log[i].to
  }

  lemma LogShape(created: int, news: seq<Report>)
    requires forall i :: 0 <= i < |news| ==> news[i].outgoing != ""
    requires forall i :: 0 < i < |news| ==> news[i - 1].outgoing != news[i].outgoing
    ensures var log := Log(created, news);
            && |log| == |news| && Contiguous(log) && (news != [] ==> log[|log| - 1].from == created)
            && (NonDecreasing(created, news) ==> RunsForward(log))
  {
    LogLength(created, news);
    forall i | 0 <= i < |news|
      ensures Log(created, news)[i].release == news[|news| - 1 - i].outgoing
      ensures Log(created, news)[i].to == news[|news| - 1 - i].now
      ensures Log(created, news)[i].from == if i == |news| - 1 then created else news[|news| - 2 - i].now
    {
      LogIsNewestFirst(created, news, i);
    }
  }

  /**
   * The shape of every history: at most ten, contiguous, the oldest of a history that was never cut
   * beginning at the environment's creation; and under a clock that does not go back no stint ends
   * before it began.
   */
  lemma HistoryIsContiguous(created: int, reports: seq<Report>)
    ensures var history := History(created, reports);
            && |history| <= MaxReleaseHistory && Contiguous(history)
            && (0 < |history| && |News(reports)| <= MaxReleaseHistory ==> history[|history| - 1].from == created)
            && (NonDecreasing(created, reports) ==> RunsForward(history))
  {
    HistoryIsNewestOfLog(created, reports);
    NewsAlternates(reports);
    LogShape(created, News(reports));
    if NonDecreasing(created, reports) {
      NewsKeepsTime(created, reports);
    }
  }

  lemma {:induction false} NewsAlternates(reports: seq<Report>)
    ensures forall i :: 0 <= i < |News(reports)| ==> News(reports)[i].outgoing != ""
    ensures forall i :: 0 < i < |News(reports)| ==> News(reports)[i - 1].outgoing != News(reports)[i].outgoing
  {
    if reports != [] {
      NewsAlternates(reports[..|reports| - 1]);
    }
  }

  lemma {:induction false} NewsKeepsTime(created: int, reports: seq<Report>)
    requires NonDecreasing(created, reports)
    ensures NonDecreasing(created, News(reports))
    ensures forall r :: r in News(reports) ==> r in reports
  {
    if reports != [] {
      var front, last := reports[..|reports| - 1], reports[|reports| - 1];
      assert reports == front + [last];
      FrontKeepsTime(created, reports);
      NewsKeepsTime(created, front);
      LaterKeepsTime(created, News(front), last);
    }
  }

  lemma FrontKeepsTime(created: int, reports: seq<Report>)
    requires NonDecreasing(created, reports) && reports != []
    ensures var front, last := reports[..|reports| - 1], reports[|reports| - 1];
            NonDecreasing(created, front) && created <= last.now && forall r :: r in front ==> r.now <= last.now
  {
    var front, last := reports[..|reports| - 1], reports[|reports| - 1];
    assert forall i :: 0 <= i < |front| ==> front[i] == reports[i];
    forall r | r in front ensures r.now <= last.now {
      var i :| 0 <= i < |front| && front[i] == r;
    }
  }

  lemma LaterKeepsTime(created: int, reports: seq<Report>, last: Report)
    requires NonDecreasing(created, reports) && created <= last.now
    requires forall r :: r in reports ==> r.now <= last.now
    ensures NonDecreasing(created, reports + [last])
  {
  }
}
