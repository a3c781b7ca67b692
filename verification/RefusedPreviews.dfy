/** The pull requests refused a preview: a list of twenty, updated in place and cut from the front. */
module RefusedPreviews {
  import opened Common

  const MaxRefusedPreviews := 20

  datatype RefusedPreview = RefusedPreview(pullRequest: int, commit: string, at: int)

  class PreviewCapacityStatus {
    var refused: seq<RefusedPreview>

    constructor ()
      ensures refused == []
    {
      refused := [];
    }

    method RecordRefusedPreview(pullRequest: int, commit: string, at: int) returns (changed: bool)
      modifies this
      ensures refused == AfterRefusal(old(refused), pullRequest, commit, at)
      ensures changed <==> refused != old(refused)
      ensures Find(refused, pullRequest) < |refused| && refused[Find(refused, pullRequest)].commit == commit
    {
      var i := 0;
      while i < |refused|
        invariant i <= |refused| && refused == old(refused)
        invariant forall k :: 0 <= k < i ==> refused[k].pullRequest != pullRequest
      {
        if refused[i].pullRequest != pullRequest {
          i := i + 1;
          continue;
        }
        FindIs(refused, pullRequest, i);
        if refused[i].commit == commit {
          return false;
        }
        refused := refused[i := RefusedPreview(pullRequest, commit, at)];
        FindIs(refused, pullRequest, i);
        assert refused[i] != old(refused)[i];
        return true;
      }
      FindIs(refused, pullRequest, i);
      refused := refused + [RefusedPreview(pullRequest, commit, at)];
      if |refused| > MaxRefusedPreviews {
        refused := refused[|refused| - MaxRefusedPreviews..];
      }
      FindIs(refused, pullRequest, |refused| - 1);
      assert refused[|refused| - 1].pullRequest == pullRequest;
      return true;
    }

    method ClearRefusedPreview(pullRequest: int) returns (wasOn: bool)
      modifies this
      ensures refused == AfterClear(old(refused), pullRequest)
      ensures wasOn <==> refused != old(refused)
    {
      var i := 0;
      while i < |refused|
        invariant i <= |refused| && refused == old(refused)
        invariant forall k :: 0 <= k < i ==> refused[k].pullRequest != pullRequest
      {
        if refused[i].pullRequest != pullRequest {
          i := i + 1;
          continue;
        }
        FindIs(refused, pullRequest, i);
        refused := refused[..i] + refused[i + 1..];
        return true;
      }
      FindIs(refused, pullRequest, i);
      return false;
    }
  }

  /** Where a pull request is on the list, or the list's length when it is not. */
  function Find(list: seq<RefusedPreview>, pullRequest: int): (at: nat)
    ensures at <= |list| && (at < |list| ==> list[at].pullRequest == pullRequest)
    ensures forall k :: 0 <= k < at ==> list[k].pullRequest != pullRequest
  {
    if list == [] || list[0].pullRequest == pullRequest then 0 else 1 + Find(list[1..], pullRequest)
  }

  lemma FindIs(list: seq<RefusedPreview>, pullRequest: int, i: nat)
    requires i <= |list| && (i < |list| ==> list[i].pullRequest == pullRequest)
    requires forall k :: 0 <= k < i ==> list[k].pullRequest != pullRequest
    ensures Find(list, pullRequest) == i
  {
    var at := Find(list, pullRequest);
    assert forall k :: 0 <= k < i ==> list[k].pullRequest != pullRequest;
  }

  predicate IsOn(list: seq<RefusedPreview>, pullRequest: int) {
    Find(list, pullRequest) < |list|
  }

  function Latest<T>(list: seq<T>): seq<T> {
    if |list| > MaxRefusedPreviews then list[|list| - MaxRefusedPreviews..] else list
  }

  function AfterRefusal(list: seq<RefusedPreview>, pullRequest: int, commit: string, at: int): seq<RefusedPreview> {
    var i := Find(list, pullRequest);
    if i == |list| then Latest(list + [RefusedPreview(pullRequest, commit, at)])
    else if list[i].commit == commit then list
    else list[i := RefusedPreview(pullRequest, commit, at)]
  }

  function Without<T>(list: seq<T>, i: nat): seq<T> {
    if i < |list| then list[..i] + list[i + 1..] else list
  }

  function AfterClear(list: seq<RefusedPreview>, pullRequest: int): seq<RefusedPreview> {
    Without(list, Find(list, pullRequest))
  }

  // ---- Runs ----

  datatype Call = Refuse(pullRequest: int, commit: string, at: int) | Clear(pullRequest: int)

  function After(list: seq<RefusedPreview>, call: Call): seq<RefusedPreview> {
    match call
    case Refuse(pullRequest, commit, at) => AfterRefusal(list, pullRequest, commit, at)
    case Clear(pullRequest) => AfterClear(list, pullRequest)
  }

  function List(calls: seq<Call>): seq<RefusedPreview> {
    if calls == [] then [] else After(List(calls[..|calls| - 1]), calls[|calls| - 1])
  }

  /** For each entry of the list, which call put its pull request there. */
  function Births(calls: seq<Call>): seq<nat> {
    if calls == [] then []
    else
      var n := |calls| - 1;
      BirthsAfter(List(calls[..n]), Births(calls[..n]), calls[n], n)
  }

  function BirthsAfter(list: seq<RefusedPreview>, births: seq<nat>, call: Call, n: nat): seq<nat> {
    var i := Find(list, call.pullRequest);
    match call
    case Refuse(_, _, _) => if i == |list| then Latest(births + [n]) else births
    case Clear(_) => Without(births, i)
  }

  predicate DistinctRequests(list: seq<RefusedPreview>) {
    forall i, j :: 0 <= i < j < |list| ==> list[i].pullRequest != list[j].pullRequest
  }

  /** Pull requests stay distinct and the list stays within its bound. */
  lemma {:induction false} ListIsBounded(calls: seq<Call>)
    ensures |List(calls)| <= MaxRefusedPreviews && DistinctRequests(List(calls))
    ensures |Births(calls)| == |List(calls)|
  {
    if calls != [] {
      var n := |calls| - 1;
      ListIsBounded(calls[..n]);
      var list := List(calls[..n]);
      var i := Find(list, calls[n].pullRequest);
      assert i < |list| ==> list[i].pullRequest == calls[n].pullRequest;
    }
  }

  /** The entry was put there by a first refusal, and nothing has cleared it since. */
  predicate BornAt(calls: seq<Call>, b: nat, pullRequest: int) {
    && b < |calls| && calls[b].Refuse? && calls[b].pullRequest == pullRequest
    && !IsOn(List(calls[..b]), pullRequest)
    && forall m :: b < m < |calls| ==> calls[m] != Clear(pullRequest)
  }

  /**
   * The entry says what the latest refusal of its request said, and when that commit was first
   * refused: every later call about the request refused the same commit again.
   */
  predicate Said(calls: seq<Call>, k: nat, entry: RefusedPreview) {
    && k < |calls| && calls[k] == Refuse(entry.pullRequest, entry.commit, entry.at)
    && forall m :: k < m < |calls| && calls[m].pullRequest == entry.pullRequest ==>
         calls[m].Refuse? && calls[m].commit == entry.commit
  }

  lemma BornAtGrows(calls: seq<Call>, b: nat, pullRequest: int)
    requires calls != [] && BornAt(calls[..|calls| - 1], b, pullRequest)
    requires calls[|calls| - 1] != Clear(pullRequest)
    ensures BornAt(calls, b, pullRequest)
  {
    assert calls[..|calls| - 1][..b] == calls[..b];
    forall m | b < m < |calls| ensures calls[m] != Clear(pullRequest) {
      assert m < |calls| - 1 ==> calls[..|calls| - 1][m] == calls[m];
    }
  }

  lemma SaidGrows(calls: seq<Call>, k: nat, entry: RefusedPreview)
    requires calls != [] && Said(calls[..|calls| - 1], k, entry)
    requires var last := calls[|calls| - 1];
      last.pullRequest == entry.pullRequest ==> last.Refuse? && last.commit == entry.commit
    ensures Said(calls, k, entry)
  {
    forall m | k < m < |calls| && calls[m].pullRequest == entry.pullRequest
      ensures calls[m].Refuse? && calls[m].commit == entry.commit
    {
      assert m < |calls| - 1 ==> calls[..|calls| - 1][m] == calls[m];
    }
  }

  /** Where the entry at `i` after a call was before it; past the end for a new one. */
  function Origin(list: seq<RefusedPreview>, call: Call, i: nat): int {
    var at := Find(list, call.pullRequest);
    match call
    case Clear(_) => if i < at then i else i + 1
    case Refuse(_, _, _) => if at < |list| then i else i + |list| + 1 - |After(list, call)|
  }

  predicate Repeats(call: Call, entry: RefusedPreview) {
    call.pullRequest == entry.pullRequest ==> call.Refuse? && call.commit == entry.commit
  }

  predicate IsNews(call: Call, entry: RefusedPreview) {
    call == Refuse(entry.pullRequest, entry.commit, entry.at)
  }

  lemma OriginOfEntry(list: seq<RefusedPreview>, call: Call, i: nat)
    requires DistinctRequests(list) && i < |After(list, call)|
    ensures var entry, j := After(list, call)[i], Origin(list, call, i);
            && 0 <= j <= |list|
            && (j < |list| ==>
                  && list[j].pullRequest == entry.pullRequest
                  && ((list[j] == entry && Repeats(call, entry)) || IsNews(call, entry)))
            && (j == |list| ==> IsNews(call, entry) && !IsOn(list, entry.pullRequest))
  {
    match call
    case Clear(pullRequest) => OriginOfKept(list, pullRequest, i);
    case Refuse(pullRequest, commit, at) =>
      if IsOn(list, pullRequest) {
        OriginOfRefreshed(list, pullRequest, commit, at, i);
      } else {
        OriginOfAdded(list, RefusedPreview(pullRequest, commit, at), i);
      }
  }

  lemma OriginOfKept(list: seq<RefusedPreview>, pullRequest: int, i: nat)
    requires DistinctRequests(list) && i < |AfterClear(list, pullRequest)|
    ensures var j := if i < Find(list, pullRequest) then i else i + 1;
            && j < |list| && AfterClear(list, pullRequest)[i] == list[j] && list[j].pullRequest != pullRequest
  {
  }

  lemma OriginOfRefreshed(list: seq<RefusedPreview>, pullRequest: int, commit: string, at: int, i: nat)
    requires DistinctRequests(list) && IsOn(list, pullRequest) && i < |list|
    ensures var after := AfterRefusal(list, pullRequest, commit, at);
            && |after| == |list|
            && (if list[i].pullRequest != pullRequest || list[i].commit == commit then after[i] == list[i]
                else after[i] == RefusedPreview(pullRequest, commit, at))
  {
  }

  lemma OriginOfAdded(list: seq<RefusedPreview>, entry: RefusedPreview, i: nat)
    requires !IsOn(list, entry.pullRequest)
    requires i < |Latest(list + [entry])|
    ensures var j := i + |list| + 1 - |Latest(list + [entry])|;
            && AfterRefusal(list, entry.pullRequest, entry.commit, entry.at) == Latest(list + [entry])
            && 0 <= j <= |list| && Latest(list + [entry])[i] == (list + [entry])[j]
            && (j < |list| ==> list[j].pullRequest != entry.pullRequest)
  {
  }

  lemma OriginOfBirth(list: seq<RefusedPreview>, births: seq<nat>, call: Call, n: nat, i: nat)
    requires |births| == |list| && i < |After(list, call)|
    ensures |BirthsAfter(list, births, call, n)| == |After(list, call)|
    ensures var j := Origin(list, call, i);
            0 <= j <= |list| && BirthsAfter(list, births, call, n)[i] == if j < |list| then births[j] else n
  {
    BirthsMatch(list, births, call, n);
    if call.Refuse? && !IsOn(list, call.pullRequest) {
      LatestAt(births + [n], i);
    }
  }

  lemma LatestAt<T>(list: seq<T>, i: nat)
    requires i < |Latest(list)|
    ensures 0 <= i + |list| - |Latest(list)| < |list| && Latest(list)[i] == list[i + |list| - |Latest(list)|]
  {
  }

  lemma BirthsMatch(list: seq<RefusedPreview>, births: seq<nat>, call: Call, n: nat)
    requires |births| == |list|
    ensures |BirthsAfter(list, births, call, n)| == |After(list, call)|
  {
  }

  /**
   * Every entry of every run: it says what was said last about its request, and it has been on the
   * list since the call that first refused it.
   */
  lemma {:induction false} EntriesTellTheirStory(calls: seq<Call>, i: nat)
    requires i < |List(calls)|
    ensures i < |Births(calls)| && BornAt(calls, Births(calls)[i], List(calls)[i].pullRequest)
    ensures exists k :: Births(calls)[i] <= k && Said(calls, k, List(calls)[i])
  {
    var n := |calls| - 1;
    var list, births := List(calls[..n]), Births(calls[..n]);
    var entry, last := List(calls)[i], calls[n];
    ListIsBounded(calls[..n]);
    OriginOfEntry(list, last, i);
    OriginOfBirth(list, births, last, n, i);
    var j := Origin(list, last, i);
    if j < |list| {
      EntriesTellTheirStory(calls[..n], j);
      BornAtGrows(calls, births[j], entry.pullRequest);
      if IsNews(last, entry) {
        assert Said(calls, n, entry);
      } else {
        var k :| births[j] <= k && Said(calls[..n], k, entry);
        SaidGrows(calls, k, entry);
      }
    } else {
      assert Said(calls, n, entry);
    }
  }

  /** Entries stand in the order in which they were first refused, whatever was refreshed or cleared. */
  lemma {:induction false} OrderIsFirstRefusal(calls: seq<Call>)
    ensures forall i :: 0 <= i < |Births(calls)| ==> Births(calls)[i] < |calls|
    ensures forall i, j :: 0 <= i < j < |Births(calls)| ==> Births(calls)[i] < Births(calls)[j]
  {
    if calls != [] {
      OrderIsFirstRefusal(calls[..|calls| - 1]);
    }
  }

  /** A call that puts a request on the list that was not there. */
  function New(list: seq<RefusedPreview>, call: Call): nat {
    if call.Refuse? && !IsOn(list, call.pullRequest) then 1 else 0
  }

  function FirstRefusals(calls: seq<Call>): nat {
    if calls == [] then 0
    else FirstRefusals(calls[..|calls| - 1]) + New(List(calls[..|calls| - 1]), calls[|calls| - 1])
  }

  /** How many entries are newer than a request's. */
  function Newer(list: seq<RefusedPreview>, pullRequest: int): int {
    |list| - 1 - Find(list, pullRequest)
  }

  lemma BornEarlier(calls: seq<Call>, b: nat, pullRequest: int)
    requires BornAt(calls, b, pullRequest) && b < |calls| - 1
    ensures BornAt(calls[..|calls| - 1], b, pullRequest)
    ensures calls[..|calls| - 1][..b + 1] == calls[..b + 1]
  {
    var front := calls[..|calls| - 1];
    assert front[..b] == calls[..b];
    forall m | b < m < |front| ensures front[m] != Clear(pullRequest) {
      assert front[m] == calls[m];
    }
  }

  /**
   * Nothing is dropped early: a request first refused at `b` and not cleared since is still on the
   * list until twenty others have been first refused after it.
   */
  lemma {:induction false} StaysUntilOvertaken(calls: seq<Call>, b: nat, pullRequest: int)
    requires BornAt(calls, b, pullRequest)
    requires FirstRefusals(calls) - FirstRefusals(calls[..b + 1]) < MaxRefusedPreviews
    ensures IsOn(List(calls), pullRequest)
    ensures Newer(List(calls), pullRequest) <= FirstRefusals(calls) - FirstRefusals(calls[..b + 1])
  {
    var front, last := calls[..|calls| - 1], calls[|calls| - 1];
    var list := List(front);
    if b == |calls| - 1 {
      assert calls[..b + 1] == calls;
      FindLast(list, last);
    } else {
      BornEarlier(calls, b, pullRequest);
      assert last == calls[|front|] && last != Clear(pullRequest);
      StaysUntilOvertaken(front, b, pullRequest);
      ListIsBounded(front);
      OneCallLater(list, last, pullRequest);
    }
  }

  lemma FindLast(list: seq<RefusedPreview>, call: Call)
    requires call.Refuse? && !IsOn(list, call.pullRequest)
    ensures After(list, call) != [] && Find(After(list, call), call.pullRequest) == |After(list, call)| - 1
  {
    var after := After(list, call);
    FindIs(after, call.pullRequest, |after| - 1);
  }

  /** One call moves a request at most one place nearer the front, and only a first refusal does. */
  lemma OneCallLater(list: seq<RefusedPreview>, call: Call, pullRequest: int)
    requires |list| <= MaxRefusedPreviews && DistinctRequests(list) && IsOn(list, pullRequest)
    requires call != Clear(pullRequest)
    requires Newer(list, pullRequest) + New(list, call) < MaxRefusedPreviews
    ensures IsOn(After(list, call), pullRequest)
    ensures Newer(After(list, call), pullRequest) <= Newer(list, pullRequest) + New(list, call)
  {
    var i, at := Find(list, pullRequest), Find(list, call.pullRequest);
    var after := After(list, call);
    if call.Clear? {
      FindIs(after, pullRequest, if at < i then i - 1 else i);
    } else if at < |list| {
      FindIs(after, pullRequest, i);
    } else {
      FindIs(after, pullRequest, i - (|list| + 1 - |after|));
    }
  }

  // ---- The order in time, and who is dropped ----

  /** Oldest first by the time an entry shows, which a push to its request refreshes. */
  predicate OldestFirst(list: seq<RefusedPreview>) {
    forall i, j :: 0 <= i < j < |list| ==> list[i].at <= list[j].at
  }

  /** A new commit of a request that is on the list, later than an entry after it. */
  predicate Overtakes(list: seq<RefusedPreview>, call: Call) {
    && call.Refuse? && IsOn(list, call.pullRequest)
    && list[Find(list, call.pullRequest)].commit != call.commit
    && Find(list, call.pullRequest) + 1 < |list|
    && list[Find(list, call.pullRequest) + 1].at < call.at
  }

  /** No entry is from after the call. */
  predicate NotBefore(list: seq<RefusedPreview>, call: Call) {
    call.Refuse? ==> forall i :: 0 <= i < |list| ==> list[i].at <= call.at
  }

  /** Under a clock that does not go back a call keeps the list oldest first exactly unless it overtakes. */
  lemma CallKeepsOldestFirstExactlyUnless(list: seq<RefusedPreview>, call: Call)
    requires OldestFirst(list) && NotBefore(list, call)
    ensures OldestFirst(After(list, call)) <==> !Overtakes(list, call)
  {
    match call
    case Clear(pullRequest) =>
      WithoutKeepsOrder(list, Find(list, pullRequest));
    case Refuse(pullRequest, commit, at) =>
      var i := Find(list, pullRequest);
      if i == |list| {
        AddingKeepsOrder(list, RefusedPreview(pullRequest, commit, at));
      } else if list[i].commit != commit {
        RefreshKeepsOrder(list, i, RefusedPreview(pullRequest, commit, at));
      }
  }

  lemma WithoutKeepsOrder(list: seq<RefusedPreview>, i: nat)
    requires OldestFirst(list)
    ensures OldestFirst(Without(list, i))
  {
  }

  lemma AddingKeepsOrder(list: seq<RefusedPreview>, entry: RefusedPreview)
    requires OldestFirst(list) && forall i :: 0 <= i < |list| ==> list[i].at <= entry.at
    ensures OldestFirst(Latest(list + [entry]))
  {
    assert OldestFirst(list + [entry]);
  }

  lemma RefreshKeepsOrder(list: seq<RefusedPreview>, at: nat, entry: RefusedPreview)
    requires OldestFirst(list) && at < |list|
    requires forall i :: 0 <= i < |list| ==> list[i].at <= entry.at
    ensures OldestFirst(list[at := entry]) <==> at + 1 == |list| || entry.at <= list[at + 1].at
  {
    var after := list[at := entry];
    if at + 1 < |list| && entry.at > list[at + 1].at {
      assert after[at].at > after[at + 1].at;
    } else {
      forall i, j | 0 <= i < j < |after| ensures after[i].at <= after[j].at {
        if i == at {
          assert list[at + 1].at <= list[j].at;
        }
      }
    }
  }

  /** The refusals of a run come in order of time. */
  predicate ClockRuns(calls: seq<Call>) {
    forall i, j :: 0 <= i < j < |calls| && calls[i].Refuse? && calls[j].Refuse? ==> calls[i].at <= calls[j].at
  }

  predicate AlwaysOldestFirst(calls: seq<Call>) {
    OldestFirst(List(calls)) && (calls != [] ==> AlwaysOldestFirst(calls[..|calls| - 1]))
  }

  predicate NeverOvertakes(calls: seq<Call>) {
    calls != [] ==>
      !Overtakes(List(calls[..|calls| - 1]), calls[|calls| - 1]) && NeverOvertakes(calls[..|calls| - 1])
  }

  lemma EntriesAreFromBefore(calls: seq<Call>, call: Call)
    requires ClockRuns(calls + [call])
    ensures NotBefore(List(calls), call)
  {
    if call.Refuse? {
      forall i | 0 <= i < |List(calls)| ensures List(calls)[i].at <= call.at {
        EntriesTellTheirStory(calls, i);
        var k :| Births(calls)[i] <= k && Said(calls, k, List(calls)[i]);
        assert (calls + [call])[k] == calls[k] && (calls + [call])[|calls|] == call;
      }
    }
  }

  /** Over every run the list is oldest first throughout exactly when no call overtakes. */
  lemma {:induction false} OldestFirstExactlyUnlessOvertaken(calls: seq<Call>)
    requires ClockRuns(calls)
    ensures AlwaysOldestFirst(calls) <==> NeverOvertakes(calls)
  {
    if calls != [] {
      var front, last := calls[..|calls| - 1], calls[|calls| - 1];
      assert calls == front + [last];
      OldestFirstExactlyUnlessOvertaken(front);
      if AlwaysOldestFirst(front) {
        EntriesAreFromBefore(front, last);
        CallKeepsOldestFirstExactlyUnless(List(front), last);
      }
    }
  }

  /** Two requests refused and the first pushed to again: it still stands first, with the later time. */
  lemma PushedToAgainStandsFirst()
    ensures var calls := [Refuse(1, "a", 0), Refuse(2, "b", 1), Refuse(1, "c", 2)];
            ClockRuns(calls)
            && List(calls) == [RefusedPreview(1, "c", 2), RefusedPreview(2, "b", 1)] && !OldestFirst(List(calls))
  {
    var calls := [Refuse(1, "a", 0), Refuse(2, "b", 1), Refuse(1, "c", 2)];
    assert calls[..2][..1][..0] == [];
    assert List(calls[..2][..1]) == [RefusedPreview(1, "a", 0)];
    assert List(calls[..2]) == [RefusedPreview(1, "a", 0), RefusedPreview(2, "b", 1)];
    assert List(calls)[0].at > List(calls)[1].at;
  }

  /** An entry leaves the list exactly when it is cleared, or is first in a full list and another is added. */
  lemma DroppedExactlyWhen(list: seq<RefusedPreview>, call: Call, pullRequest: int)
    requires |list| <= MaxRefusedPreviews && DistinctRequests(list) && IsOn(list, pullRequest)
    ensures !IsOn(After(list, call), pullRequest) <==>
            || call == Clear(pullRequest)
            || (Find(list, pullRequest) == 0 && |list| == MaxRefusedPreviews && New(list, call) == 1)
  {
    if call.Clear? {
      ClearedIsDropped(list, call.pullRequest, pullRequest);
    } else if IsOn(list, call.pullRequest) {
      FindIs(After(list, call), pullRequest, Find(list, pullRequest));
    } else {
      AddingDrops(list, RefusedPreview(call.pullRequest, call.commit, call.at), pullRequest);
    }
  }

  lemma ClearedIsDropped(list: seq<RefusedPreview>, cleared: int, pullRequest: int)
    requires DistinctRequests(list) && IsOn(list, pullRequest)
    ensures !IsOn(AfterClear(list, cleared), pullRequest) <==> cleared == pullRequest
  {
    var i, at, after := Find(list, pullRequest), Find(list, cleared), AfterClear(list, cleared);
    if cleared == pullRequest {
      NotThere(after, pullRequest);
    } else {
      FindIs(after, pullRequest, if at < i then i - 1 else i);
    }
  }

  lemma AddingDrops(list: seq<RefusedPreview>, entry: RefusedPreview, pullRequest: int)
    requires |list| <= MaxRefusedPreviews && DistinctRequests(list)
    requires IsOn(list, pullRequest) && !IsOn(list, entry.pullRequest)
    ensures !IsOn(Latest(list + [entry]), pullRequest) <==> Find(list, pullRequest) == 0 && |list| == MaxRefusedPreviews
  {
    var i, after := Find(list, pullRequest), Latest(list + [entry]);
    if i == 0 && |list| == MaxRefusedPreviews {
      NotThere(after, pullRequest);
    } else {
      FindIs(after, pullRequest, i - (|list| + 1 - |after|));
    }
  }

  lemma NotThere(list: seq<RefusedPreview>, pullRequest: int)
    requires forall i :: 0 <= i < |list| ==> list[i].pullRequest != pullRequest
    ensures !IsOn(list, pullRequest)
  {
  }

  /**
   * So a request pushed to by the call just before is dropped by the next first refusal, when it
   * was the first refused of a full list: not one nobody has pushed to in twenty requests' time.
   */
  lemma JustPushedToIsDropped(calls: seq<Call>, commit: string, now: int, other: Call)
    requires |List(calls)| == MaxRefusedPreviews && other.Refuse? && !IsOn(List(calls), other.pullRequest)
    ensures var pushed := List(calls)[0].pullRequest;
            var refreshed := List(calls + [Refuse(pushed, commit, now)]);
            && Find(refreshed, pushed) == 0 && refreshed[0].commit == commit
            && !IsOn(After(refreshed, other), pushed)
  {
    var list := List(calls);
    var pushed := list[0].pullRequest;
    var push := Refuse(pushed, commit, now);
    assert (calls + [push])[..|calls|] == calls;
    ListIsBounded(calls);
    ListIsBounded(calls + [push]);
    FindIs(list, pushed, 0);
    var refreshed := After(list, push);
    FindIs(refreshed, pushed, 0);
    assert forall i :: 0 <= i < |list| ==> refreshed[i].pullRequest == list[i].pullRequest;
    FindIs(refreshed, other.pullRequest, |refreshed|);
    DroppedExactlyWhen(refreshed, other, pushed);
  }

  /** A full list is reached: refusing that many requests leaves each of them on it. */
  lemma {:induction false} FirstRefusalsFill(calls: seq<Call>)
    requires |calls| <= MaxRefusedPreviews
    requires forall i :: 0 <= i < |calls| ==> calls[i].Refuse?
    requires forall i, j :: 0 <= i < j < |calls| ==> calls[i].pullRequest != calls[j].pullRequest
    ensures |List(calls)| == |calls|
    ensures forall i :: 0 <= i < |calls| ==> List(calls)[i].pullRequest == calls[i].pullRequest
  {
    if calls != [] {
      FirstRefusalsFill(calls[..|calls| - 1]);
      NotThere(List(calls[..|calls| - 1]), calls[|calls| - 1].pullRequest);
    }
  }

  /** Refusing one commit twice writes nothing the second time, and the entry keeps its first time. */
  lemma RepeatedRefusalWritesNothing(calls: seq<Call>, pullRequest: int, commit: string, at: int, later: int)
    ensures var once := List(calls + [Refuse(pullRequest, commit, at)]);
            After(once, Refuse(pullRequest, commit, later)) == once
  {
    var list := List(calls);
    ListIsBounded(calls);
    assert (calls + [Refuse(pullRequest, commit, at)])[..|calls|] == calls;
    var i := Find(list, pullRequest);
    var once := After(list, Refuse(pullRequest, commit, at));
    if i == |list| {
      FindLast(list, Refuse(pullRequest, commit, at));
    } else {
      FindIs(once, pullRequest, i);
    }
  }
}
