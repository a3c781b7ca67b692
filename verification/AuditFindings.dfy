/** What the verifier says of a sound run that somebody has changed: where, and in which of its words. */
module AuditFindings {
  import opened Common
  import opened AuditEncoding
  import opened AuditChain

  /** Two hexadecimal hashes are one when they differ in the case of letters only. */
  lemma FoldIsLetterCase(a: Text, b: Text)
    ensures EqualFold(a, b) <==>
            |a| == |b| && forall i :: 0 <= i < |a| ==>
              || a[i] == b[i]
              || ('A' as int <= a[i] <= 'Z' as int && b[i] as int == a[i] as int + 32)
              || ('A' as int <= b[i] <= 'Z' as int && a[i] as int == b[i] as int + 32)
  {
  }

  lemma GenesisIsSixtyFourZeros()
    ensures |GenesisHash| == 64 && forall i :: 0 <= i < |GenesisHash| ==> GenesisHash[i] == '0' as int
  {
  }

  function When(condition: bool, sequence: int, kind: Break): seq<Finding> {
    if condition then [Finding(sequence, kind)] else []
  }

  function Flatten(parts: seq<seq<Finding>>): seq<Finding> {
    if parts == [] then [] else Flatten(parts[..|parts| - 1]) + parts[|parts| - 1]
  }

  lemma {:induction false} FlattenConcat(x: seq<seq<Finding>>, y: seq<seq<Finding>>)
    ensures Flatten(x + y) == Flatten(x) + Flatten(y)
  {
    if y == [] {
      assert x + y == x;
    } else {
      FlattenConcat(x, y[..|y| - 1]);
      assert (x + y)[..|x + y| - 1] == x + y[..|y| - 1];
    }
  }

  lemma {:induction false} FlattenEmpty(parts: seq<seq<Finding>>)
    requires forall i :: 0 <= i < |parts| ==> parts[i] == []
    ensures Flatten(parts) == []
  {
    if parts != [] {
      FlattenEmpty(parts[..|parts| - 1]);
    }
  }

  lemma FlattenPair(a: seq<Finding>, b: seq<Finding>)
    ensures Flatten([a]) == a && Flatten([a, b]) == a + b
  {
    assert [a][..0] == [] && [a, b][..1] == [a];
  }

  lemma FlattenAround(x: seq<seq<Finding>>, middle: seq<seq<Finding>>, y: seq<seq<Finding>>)
    requires Flatten(x) == [] && Flatten(y) == []
    ensures Flatten(x + middle + y) == Flatten(middle)
  {
    FlattenConcat(x, middle);
    FlattenConcat(x + middle, y);
  }

  lemma SplitInThree(parts: seq<seq<Finding>>, k: nat, n: nat)
    requires k <= n <= |parts|
    ensures parts == parts[..k] + parts[k..n] + parts[n..]
  {
  }

  lemma FlattenMiddle(parts: seq<seq<Finding>>, k: nat, n: nat)
    requires k <= n <= |parts|
    requires forall i :: 0 <= i < |parts| && !(k <= i < n) ==> parts[i] == []
    ensures Flatten(parts) == Flatten(parts[k..n])
  {
    var front, middle, rest := parts[..k], parts[k..n], parts[n..];
    SplitInThree(parts, k, n);
    FlattenEmpty(front);
    FlattenEmpty(rest);
    FlattenAround(front, middle, rest);
  }

  /** Two parts that may say something, among parts that do not. */
  lemma FlattenTwo(parts: seq<seq<Finding>>, k: nat)
    requires k < |parts|
    requires forall i :: 0 <= i < |parts| && i != k && i != k + 1 ==> parts[i] == []
    ensures Flatten(parts) == parts[k] + if k + 1 < |parts| then parts[k + 1] else []
  {
    if k + 1 < |parts| {
      FlattenMiddle(parts, k, k + 2);
      FlattenPair(parts[k], parts[k + 1]);
      PairSlice(parts, k);
    } else {
      FlattenMiddle(parts, k, k + 1);
      FlattenPair(parts[k], []);
      LastSlice(parts, k);
    }
  }

  lemma PairSlice(parts: seq<seq<Finding>>, k: nat)
    requires k + 1 < |parts|
    ensures parts[k..k + 2] == [parts[k], parts[k + 1]]
  {
  }

  lemma LastSlice(parts: seq<seq<Finding>>, k: nat)
    requires k < |parts|
    ensures parts[k..k + 1] == [parts[k]]
  {
  }

  /** What is said of each record. */
  function Parts(h: Digest, records: seq<Record>, previous: Record): (parts: seq<seq<Finding>>)
    ensures |parts| == |records|
    ensures forall i :: 0 <= i < |records| ==> parts[i] == FindingsAt(h, records, previous, i)
  {
    seq(|records|, i requires 0 <= i < |records| => FindingsAt(h, records, previous, i))
  }

  lemma {:induction false} FindingsAreParts(h: Digest, records: seq<Record>, previous: Record, n: nat)
    requires n <= |records|
    ensures FindingsUpTo(h, records, previous, n) == Flatten(Parts(h, records, previous)[..n])
  {
    if n > 0 {
      FindingsAreParts(h, records, previous, n - 1);
      var parts := Parts(h, records, previous);
      assert parts[..n][..n - 1] == parts[..n - 1];
    }
  }

  lemma VerifiedSays(h: Digest, records: seq<Record>, previous: Record)
    ensures Verified(h, records, previous).findings == Flatten(Parts(h, records, previous))
  {
    FindingsAreParts(h, records, previous, |records|);
    assert Parts(h, records, previous)[..|records|] == Parts(h, records, previous);
  }

  /** Findings at one place and the next, and none elsewhere. */
  lemma TwoPlaces(h: Digest, records: seq<Record>, previous: Record, k: nat)
    requires k < |records|
    requires forall i :: 0 <= i < |records| && i != k && i != k + 1 ==> FindingsAt(h, records, previous, i) == []
    ensures Verified(h, records, previous).findings
         == FindingsAt(h, records, previous, k)
            + if k + 1 < |records| then FindingsAt(h, records, previous, k + 1) else []
  {
    VerifiedSays(h, records, previous);
    FlattenTwo(Parts(h, records, previous), k);
  }

  lemma SoundIsQuiet(h: Digest, log: seq<Record>, previous: Record, i: nat)
    requires Sound(h, log, previous) && i < |log|
    ensures FindingsAt(h, log, previous, i) == []
  {
    NoFindingHere(h, log, previous, i);
  }

  /** What is said of a record where `sequence` and `link` were expected. */
  lemma SaidHere(h: Digest, records: seq<Record>, previous: Record, i: nat)
    requires i < |records|
    ensures var r, sequence := records[i], 1 + if i == 0 then previous.sequence else records[i - 1].sequence;
            var link := if i > 0 then records[i - 1].hash
                        else if previous.hash == [] then GenesisHash else previous.hash;
            FindingsAt(h, records, previous, i)
            == When(r.sequence != sequence, sequence, Missing)
               + When(!EqualFold(r.prevHash, link), r.sequence, Unlinked)
               + When(!EqualFold(ChainHash(h, r), r.hash), r.sequence, Mutated)
  {
  }

  /**
   * Any one record of a sound run replaced by any other: what is said of it, what is said of the one
   * after it, and that nothing is said of any other.
   */
  lemma OneRecordReplaced(h: Digest, log: seq<Record>, previous: Record, k: nat, r: Record)
    requires Sound(h, log, previous) && k < |log|
    ensures Verified(h, log[k := r], previous).findings
         == When(r.sequence != log[k].sequence, log[k].sequence, Missing)
            + When(!EqualFold(r.prevHash, ExpectedLink(log, previous, k)), r.sequence, Unlinked)
            + When(!EqualFold(ChainHash(h, r), r.hash), r.sequence, Mutated)
            + if k + 1 == |log| then []
              else When(log[k + 1].sequence != r.sequence + 1, r.sequence + 1, Missing)
                   + When(!EqualFold(log[k + 1].prevHash, r.hash), log[k + 1].sequence, Unlinked)
  {
    var edited := log[k := r];
    forall i | 0 <= i < |edited| && i != k && i != k + 1 ensures FindingsAt(h, edited, previous, i) == [] {
      SoundIsQuiet(h, log, previous, i);
      SameNeighbours(h, log, previous, k, r, i);
    }
    TwoPlaces(h, edited, previous, k);
    SaidOfReplaced(h, log, previous, k, r);
    if k + 1 < |log| {
      SaidOfNext(h, log, previous, k, r);
    }
  }

  lemma SaidOfReplaced(h: Digest, log: seq<Record>, previous: Record, k: nat, r: Record)
    requires Sound(h, log, previous) && k < |log|
    ensures FindingsAt(h, log[k := r], previous, k)
         == When(r.sequence != log[k].sequence, log[k].sequence, Missing)
            + When(!EqualFold(r.prevHash, ExpectedLink(log, previous, k)), r.sequence, Unlinked)
            + When(!EqualFold(ChainHash(h, r), r.hash), r.sequence, Mutated)
  {
    assert SoundAt(h, log, previous, k);
    SaidHere(h, log[k := r], previous, k);
  }

  lemma SaidOfNext(h: Digest, log: seq<Record>, previous: Record, k: nat, r: Record)
    requires Sound(h, log, previous) && k + 1 < |log|
    ensures FindingsAt(h, log[k := r], previous, k + 1)
         == When(log[k + 1].sequence != r.sequence + 1, r.sequence + 1, Missing)
            + When(!EqualFold(log[k + 1].prevHash, r.hash), log[k + 1].sequence, Unlinked)
  {
    assert SoundAt(h, log, previous, k + 1);
    SaidHere(h, log[k := r], previous, k + 1);
  }

  lemma SameNeighbours(h: Digest, log: seq<Record>, previous: Record, k: nat, r: Record, i: nat)
    requires k < |log| && i < |log| && i != k && i != k + 1
    ensures FindingsAt(h, log[k := r], previous, i) == FindingsAt(h, log, previous, i)
  {
  }

  /** A record edited in place, its number, link and hash left as they were: it is mutated, and that is all. */
  lemma EditedEntryIsMutated(h: Digest, log: seq<Record>, previous: Record, k: nat, entry: Entry)
    requires Sound(h, log, previous) && k < |log|
    requires var edited := log[k].(entry := entry); !EqualFold(ChainHash(h, edited), edited.hash)
    ensures Verified(h, log[k := log[k].(entry := entry)], previous).findings == [Finding(log[k].sequence, Mutated)]
  {
    OneRecordReplaced(h, log, previous, k, log[k].(entry := entry));
    assert SoundAt(h, log, previous, k);
    if k + 1 < |log| {
      assert SoundAt(h, log, previous, k + 1);
    }
  }

  /** A link rewritten: unlinked, and mutated as well, since the link is hashed. */
  lemma RewrittenLinkIsUnlinked(h: Digest, log: seq<Record>, previous: Record, k: nat, link: Text)
    requires Sound(h, log, previous) && k < |log|
    ensures var edited := log[k].(prevHash := link);
            Verified(h, log[k := edited], previous).findings
            == When(!EqualFold(link, ExpectedLink(log, previous, k)), log[k].sequence, Unlinked)
               + When(!EqualFold(ChainHash(h, edited), edited.hash), log[k].sequence, Mutated)
  {
    OneRecordReplaced(h, log, previous, k, log[k].(prevHash := link));
    if k + 1 < |log| {
      assert SoundAt(h, log, previous, k + 1);
    }
  }

  /** An edit rehashed in place: the record is as good as new, and the one after it is unlinked. */
  lemma RehashedEditUnlinksTheNext(h: Digest, log: seq<Record>, previous: Record, k: nat, entry: Entry)
    requires Sound(h, log, previous) && k < |log|
    ensures var open := log[k].(entry := entry);
            var edited := open.(hash := ChainHash(h, open));
            Verified(h, log[k := edited], previous).findings
            == if k + 1 == |log| then []
               else When(!EqualFold(log[k + 1].prevHash, edited.hash), log[k + 1].sequence, Unlinked)
  {
    var open := log[k].(entry := entry);
    OneRecordReplaced(h, log, previous, k, open.(hash := ChainHash(h, open)));
    assert SoundAt(h, log, previous, k);
    if k + 1 < |log| {
      assert SoundAt(h, log, previous, k + 1);
    }
  }

  /**
   * Rows taken out of the middle: the first that is gone is missing, the first that is left is
   * unlinked, unless the hashes happen to agree, and nothing else is said.
   */
  lemma RemovedRowsAreMissing(h: Digest, log: seq<Record>, previous: Record, k: nat, m: nat)
    requires Sound(h, log, previous) && k < m < |log|
    ensures Verified(h, log[..k] + log[m..], previous).findings
         == [Finding(log[k].sequence, Missing)]
            + When(!EqualFold(log[m].prevHash, ExpectedLink(log, previous, k)), log[m].sequence, Unlinked)
  {
    var cut := log[..k] + log[m..];
    forall i | 0 <= i < |cut| && i != k ensures FindingsAt(h, cut, previous, i) == [] {
      SoundIsQuiet(h, log, previous, if i < k then i else i - k + m);
      SameBeforeAndAfter(h, log, previous, k, m, i);
    }
    TwoPlaces(h, cut, previous, k);
    SaidAtTheCut(h, log, previous, k, m);
  }

  lemma SaidAtTheCut(h: Digest, log: seq<Record>, previous: Record, k: nat, m: nat)
    requires Sound(h, log, previous) && k < m < |log|
    ensures FindingsAt(h, log[..k] + log[m..], previous, k)
         == [Finding(log[k].sequence, Missing)]
            + When(!EqualFold(log[m].prevHash, ExpectedLink(log, previous, k)), log[m].sequence, Unlinked)
  {
    SaidHere(h, log[..k] + log[m..], previous, k);
    SoundRunsAreDense(h, log, previous, k);
    SoundRunsAreDense(h, log, previous, m);
    if k > 0 {
      SoundRunsAreDense(h, log, previous, k - 1);
    }
    assert SoundAt(h, log, previous, m);
  }

  lemma SameBeforeAndAfter(h: Digest, log: seq<Record>, previous: Record, k: nat, m: nat, i: nat)
    requires k < m < |log| && i < k + |log| - m && i != k
    ensures FindingsAt(h, log[..k] + log[m..], previous, i)
         == FindingsAt(h, log, previous, if i < k then i else i - k + m)
  {
  }

  /** What the anchor adds to a sound log read from its beginning, by how many numbers it says were claimed. */
  lemma AnchorSays(h: Digest, log: seq<Record>, anchor: Anchor)
    requires Sound(h, log, Nothing)
    ensures var claimed := anchor.sequence;
            AgainstAnchor(Verified(h, log, Nothing), anchor, false).findings
            == if !anchor.present then [Finding(|log|, Unanchored)]
               else When(claimed > |log|, |log| + 1, Truncated) + When(claimed < |log|, claimed + 1, Unclaimed)
  {
    NoFindingsMeansSound(h, log, Nothing, |log|);
    if log != [] {
      SoundRunsAreDense(h, log, Nothing, |log| - 1);
    }
  }

  /** Where a run begins and ends, and how much of it was read. */
  lemma RangeOfASoundRun(h: Digest, log: seq<Record>, previous: Record)
    requires Sound(h, log, previous) && log != []
    ensures Verified(h, log, previous)
         == Verification(previous.sequence + 1, previous.sequence + |log|, |log|, true, [])
  {
    NoFindingsMeansSound(h, log, previous, |log|);
    SoundRunsAreDense(h, log, previous, 0);
    SoundRunsAreDense(h, log, previous, |log| - 1);
  }
}
