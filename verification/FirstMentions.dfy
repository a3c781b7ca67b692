/** Lists of names reduced to the first mention of each. */
module FirstMentions {
  import opened Common

  function FirstMention(list: seq<string>, name: string): (at: nat)
    requires name in list
    ensures at < |list| && list[at] == name && name !in list[..at]
  {
    if list[0] == name then 0 else 1 + FirstMention(list[1..], name)
  }

  lemma FirstMentionIs(list: seq<string>, name: string, i: nat)
    requires i < |list| && list[i] == name && name !in list[..i]
    ensures FirstMention(list, name) == i
  {
    var at := FirstMention(list, name);
    forall k | 0 <= k < i ensures list[k] != name {
      assert list[k] in list[..i];
    }
    forall k | 0 <= k < at ensures list[k] != name {
      assert list[k] in list[..at];
    }
  }

  /** A list reduced to the first mention of each entry. */
  function Dedup(list: seq<string>): seq<string> {
    if list == [] then [] else Extend(Dedup(list[..|list| - 1]), list[|list| - 1])
  }

  function Extend(kept: seq<string>, name: string): seq<string> {
    if name in kept then kept else kept + [name]
  }

  lemma DedupSnoc(list: seq<string>, last: string)
    ensures Dedup(list + [last]) == Extend(Dedup(list), last)
  {
    assert (list + [last])[..|list|] == list;
  }

  lemma {:induction false} DedupElements(list: seq<string>)
    ensures Distinct(Dedup(list))
    ensures forall c :: c in Dedup(list) <==> c in list
  {
    if list != [] {
      var front, last := list[..|list| - 1], list[|list| - 1];
      DedupElements(front);
      assert list == front + [last];
    }
  }

  lemma {:induction false} DedupFixesDistinct(list: seq<string>)
    requires Distinct(list)
    ensures Dedup(list) == list
  {
    if list != [] {
      var front, last := list[..|list| - 1], list[|list| - 1];
      DedupFixesDistinct(front);
      assert list == front + [last];
    }
  }

  lemma {:induction false} DedupLeft(x: seq<string>, y: seq<string>)
    ensures Dedup(Dedup(x) + y) == Dedup(x + y)
  {
    if y == [] {
      DedupElements(x);
      DedupFixesDistinct(Dedup(x));
      assert Dedup(x) + y == Dedup(x) && x + y == x;
    } else {
      var front, last := y[..|y| - 1], y[|y| - 1];
      DedupLeft(x, front);
      assert Dedup(x) + y == Dedup(x) + front + [last] && x + y == x + front + [last];
      DedupSnoc(Dedup(x) + front, last);
      DedupSnoc(x + front, last);
    }
  }

  lemma {:induction false} DedupRight(x: seq<string>, y: seq<string>)
    ensures Dedup(x + Dedup(y)) == Dedup(x + y)
  {
    if y != [] {
      var front, last := y[..|y| - 1], y[|y| - 1];
      DedupRight(x, front);
      assert x + y == x + front + [last];
      DedupSnoc(x + front, last);
      if last in Dedup(front) {
        DedupElements(front);
        DedupElements(x + front);
      } else {
        assert x + (Dedup(front) + [last]) == x + Dedup(front) + [last];
        DedupSnoc(x + Dedup(front), last);
      }
    }
  }

  /** Entries stand in the order in which they were first named. */
  lemma {:induction false} DedupKeepsOrder(list: seq<string>, i: nat, j: nat)
    requires i < j < |Dedup(list)|
    ensures Dedup(list)[i] in list && Dedup(list)[j] in list
    ensures FirstMention(list, Dedup(list)[i]) < FirstMention(list, Dedup(list)[j])
  {
    DedupElements(list);
    assert Dedup(list)[i] in Dedup(list) && Dedup(list)[j] in Dedup(list);
    var front, last := list[..|list| - 1], list[|list| - 1];
    DedupElements(front);
    assert Dedup(list)[i] in Dedup(front);
    FirstMentionInPrefix(list, |front|, Dedup(list)[i]);
    if j < |Dedup(front)| {
      DedupKeepsOrder(front, i, j);
      FirstMentionInPrefix(list, |front|, Dedup(list)[j]);
    }
  }

  lemma FirstMentionInPrefix(list: seq<string>, n: nat, name: string)
    requires n <= |list| && name in list[..n]
    ensures name in list
    ensures FirstMention(list, name) == FirstMention(list[..n], name)
  {
    var at, before := FirstMention(list, name), FirstMention(list[..n], name);
    assert list[before] == name && list[at] == name;
    assert forall k :: 0 <= k < at ==> list[..at][k] == list[k];
    assert forall k :: 0 <= k < before ==> list[..n][..before][k] == list[k];
  }

  ghost predicate Ranked(all: seq<string>, list: seq<string>) {
    && (forall i :: 0 <= i < |list| ==> list[i] in all)
    && forall i, j :: 0 <= i < j < |list| ==> FirstMention(all, list[i]) < FirstMention(all, list[j])
  }

  lemma RankedTail(all: seq<string>, list: seq<string>)
    requires Ranked(all, list) && list != []
    ensures Ranked(all, list[1..])
    ensures forall c :: c in list[1..] <==> c in list && c != list[0]
    ensures forall c :: c in list ==> c in all && FirstMention(all, list[0]) <= FirstMention(all, c)
  {
    assert list == [list[0]] + list[1..];
    assert forall i :: 0 < i < |list| ==> FirstMention(all, list[0]) < FirstMention(all, list[i]);
  }

  lemma {:induction false} RankedListsAgree(all: seq<string>, x: seq<string>, y: seq<string>)
    requires forall c :: c in x <==> c in y
    requires Ranked(all, x) && Ranked(all, y)
    ensures x == y
  {
    assert |y| > 0 ==> y[0] in y;
    if x != [] {
      assert x[0] in y;
      RankedTail(all, x);
      RankedTail(all, y);
      assert FirstMention(all, x[0]) == FirstMention(all, y[0]);
      RankedListsAgree(all, x[1..], y[1..]);
      assert x == [x[0]] + x[1..] && y == [y[0]] + y[1..];
    }
  }

  lemma {:induction false} DedupIgnoresRepeats(x: seq<string>, y: seq<string>)
    requires forall c :: c in y ==> c in x
    ensures Dedup(x + y) == Dedup(x)
  {
    if y == [] {
      assert x + y == x;
    } else {
      var front := y[..|y| - 1];
      DedupIgnoresRepeats(x, front);
      DedupElements(x);
      assert (x + y)[..|x + y| - 1] == x + front;
    }
  }
}
