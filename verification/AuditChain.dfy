/**
 * The audit log's hash chain: sealing a record onto its predecessor, and the verifier that walks a
 * run of stored rows and compares its end with the anchor kept outside the table. The digest is a
 * parameter; what is proved of it is a reduction, "the logs are the same or here is a collision".
 */
module AuditChain {
  import opened Common
  import opened AuditEncoding

  /** A hash of a record's content; the program's is a digest of the encoding, `OverBytes`. */
  type Digest = Content -> Text

  function OverBytes(digest: seq<Byte> -> Text): Digest {
    content => digest(Encode(content))
  }

  function Repeat(digit: Byte, n: nat): (s: seq<Byte>)
    ensures |s| == n && forall i :: 0 <= i < n ==> s[i] == digit
  {
    seq(n, i => digit)
  }

  /** Sixty-four zeros, as characters. */
  const GenesisHash: Text := Repeat(48, 64)

  const NoEntry := Entry([], [], [], [], [], [], [], [], [], [], [], [], [], [])

  /** The record that stands for "nothing before this". */
  const Nothing := Record(0, [], NoEntry, [])

  function ChainHash(h: Digest, r: Record): Text {
    h(ContentOf(r))
  }

  function LinkTo(previous: Record): Text {
    if previous.hash == [] then GenesisHash else previous.hash
  }

  function Seal(h: Digest, entry: Entry, previous: Record): (sealed: Record)
    ensures sealed.sequence == previous.sequence + 1 && sealed.entry == entry
    ensures sealed.prevHash == LinkTo(previous) && sealed.hash == ChainHash(h, sealed)
  {
    var open := Record(previous.sequence + 1, LinkTo(previous), entry, []);
    open.(hash := ChainHash(h, open))
  }

  function Lower(b: Byte): Byte {
    if 65 <= b <= 90 then b + 32 else b
  }

  /** Case-insensitive comparison of two hexadecimal hashes. */
  predicate EqualFold(a: Text, b: Text) {
    |a| == |b| && forall i :: 0 <= i < |a| ==> Lower(a[i]) == Lower(b[i])
  }

  datatype Break = Mutated | Missing | Unlinked | Truncated | Unclaimed | Unanchored

  datatype Finding = Finding(sequence: int, kind: Break)

  datatype Verification = Verification(from: int, to: int, checked: nat, intact: bool, findings: seq<Finding>)

  datatype Anchor = Anchor(present: bool, sequence: int, hash: Text)

  /** The hash the record at `i` has to link to. */
  function ExpectedLink(records: seq<Record>, previous: Record, i: nat): Text
    requires i < |records|
  {
    if i == 0 then LinkTo(previous) else records[i - 1].hash
  }

  function ExpectedSequence(records: seq<Record>, previous: Record, i: nat): int
    requires i < |records|
  {
    1 + if i == 0 then previous.sequence else records[i - 1].sequence
  }

  /** What is wrong with one record, given what it should follow. */
  function Judge(h: Digest, record: Record, sequence: int, link: Text): seq<Finding> {
    (if record.sequence != sequence then [Finding(sequence, Missing)] else [])
    + (if !EqualFold(record.prevHash, link) then [Finding(record.sequence, Unlinked)] else [])
    + (if !EqualFold(ChainHash(h, record), record.hash) then [Finding(record.sequence, Mutated)] else [])
  }

  /** A record is judged against its neighbour alone, so one edit is not reported all the way down. */
  function FindingsAt(h: Digest, records: seq<Record>, previous: Record, i: nat): seq<Finding>
    requires i < |records|
  {
    Judge(h, records[i], ExpectedSequence(records, previous, i), ExpectedLink(records, previous, i))
  }

  function FindingsUpTo(h: Digest, records: seq<Record>, previous: Record, n: nat): seq<Finding>
    requires n <= |records|
  {
    if n == 0 then [] else FindingsUpTo(h, records, previous, n - 1) + FindingsAt(h, records, previous, n - 1)
  }

  function Verified(h: Digest, records: seq<Record>, previous: Record): Verification {
    var findings := FindingsUpTo(h, records, previous, |records|);
    if records == [] then Verification(0, 0, 0, true, [])
    else Verification(records[0].sequence, records[|records| - 1].sequence, |records|, findings == [], findings)
  }

  /** The verifier's loop body: at most one finding of each kind, in this order. */
  method CheckRecord(h: Digest, record: Record, expectedSequence: int, expectedPrevHash: Text)
    returns (findings: seq<Finding>)
    ensures findings == Judge(h, record, expectedSequence, expectedPrevHash)
  {
    findings := [];
    if record.sequence != expectedSequence {
      findings := findings + [Finding(expectedSequence, Missing)];
    }
    if !EqualFold(record.prevHash, expectedPrevHash) {
      findings := findings + [Finding(record.sequence, Unlinked)];
    }
    var recomputed := ChainHash(h, record);
    if !EqualFold(recomputed, record.hash) {
      findings := findings + [Finding(record.sequence, Mutated)];
    }
  }

  method Verify(h: Digest, records: seq<Record>, previous: Record) returns (result: Verification)
    ensures result == Verified(h, records, previous)
  {
    if |records| == 0 {
      return Verification(0, 0, 0, true, []);
    }
    var findings: seq<Finding> := [];
    var expectedSequence := previous.sequence + 1;
    var expectedPrevHash := previous.hash;
    if expectedPrevHash == [] {
      expectedPrevHash := GenesisHash;
    }
    for i := 0 to |records|
      invariant findings == FindingsUpTo(h, records, previous, i)
      invariant i < |records| ==> expectedSequence == ExpectedSequence(records, previous, i)
      invariant i < |records| ==> expectedPrevHash == ExpectedLink(records, previous, i)
    {
      var found := CheckRecord(h, records[i], expectedSequence, expectedPrevHash);
      findings := findings + found;
      expectedSequence := records[i].sequence + 1;
      expectedPrevHash := records[i].hash;
    }
    result := Verification(records[0].sequence, records[|records| - 1].sequence, |records|, |findings| == 0, findings);
  }

  function AgainstAnchor(v: Verification, anchor: Anchor, partial: bool): Verification {
    var findings := v.findings +
      (if !anchor.present then [Finding(v.to, Unanchored)]
       else if partial then []
       else if anchor.sequence > v.to then [Finding(v.to + 1, Truncated)]
       else if anchor.sequence < v.to then [Finding(anchor.sequence + 1, Unclaimed)]
       else []);
    v.(findings := findings, intact := findings == [])
  }

  /** What the verification endpoint answers for a whole log read from its beginning. */
  predicate Intact(h: Digest, records: seq<Record>, anchor: Anchor) {
    AgainstAnchor(Verified(h, records, Nothing), anchor, false).intact
  }

  /** Every record follows its predecessor, links to it and hashes to what is stored beside it. */
  ghost predicate Sound(h: Digest, records: seq<Record>, previous: Record) {
    forall i :: 0 <= i < |records| ==> SoundAt(h, records, previous, i)
  }

  ghost predicate SoundAt(h: Digest, records: seq<Record>, previous: Record, i: nat)
    requires i < |records|
  {
    && records[i].sequence == ExpectedSequence(records, previous, i)
    && EqualFold(records[i].prevHash, ExpectedLink(records, previous, i))
    && EqualFold(ChainHash(h, records[i]), records[i].hash)
  }

  lemma NoFindingHere(h: Digest, records: seq<Record>, previous: Record, i: nat)
    requires i < |records|
    ensures FindingsAt(h, records, previous, i) == [] <==> SoundAt(h, records, previous, i)
  {
  }

  lemma {:induction false} NoFindingsMeansSound(h: Digest, records: seq<Record>, previous: Record, n: nat)
    requires n <= |records|
    ensures FindingsUpTo(h, records, previous, n) == [] <==>
            forall i :: 0 <= i < n ==> SoundAt(h, records, previous, i)
  {
    if n > 0 {
      NoFindingsMeansSound(h, records, previous, n - 1);
      NoFindingHere(h, records, previous, n - 1);
    }
  }

  lemma {:induction false} SoundRunsAreDense(h: Digest, records: seq<Record>, previous: Record, i: nat)
    requires Sound(h, records, previous) && i < |records|
    ensures records[i].sequence == previous.sequence + 1 + i
  {
    assert SoundAt(h, records, previous, i);
    if i > 0 {
      SoundRunsAreDense(h, records, previous, i - 1);
    }
  }

  /**
   * What `intact` means for a whole log: there is an anchor, the rows are a sound chain from the
   * beginning, and there are exactly as many of them as numbers were claimed.
   */
  lemma IntactMeansSoundAndComplete(h: Digest, records: seq<Record>, anchor: Anchor)
    ensures Intact(h, records, anchor) <==>
            anchor.present && Sound(h, records, Nothing) && |records| == anchor.sequence
  {
    NoFindingsMeansSound(h, records, Nothing, |records|);
    if Sound(h, records, Nothing) && records != [] {
      SoundRunsAreDense(h, records, Nothing, |records| - 1);
    }
  }

  /** A page of the log says nothing about its end: the anchor only has to be there. */
  lemma IntactPage(h: Digest, page: seq<Record>, previous: Record, anchor: Anchor)
    ensures AgainstAnchor(Verified(h, page, previous), anchor, true).intact <==>
            anchor.present && Sound(h, page, previous)
  {
    NoFindingsMeansSound(h, page, previous, |page|);
  }

  /** Sealing a record onto the end of a sound run leaves it sound. */
  lemma SealExtends(h: Digest, run: seq<Record>, previous: Record, entry: Entry)
    requires Sound(h, run, previous)
    requires run != [] ==> run[|run| - 1].hash != []
    ensures Sound(h, run + [Seal(h, entry, if run == [] then previous else run[|run| - 1])], previous)
  {
    var last := if run == [] then previous else run[|run| - 1];
    var longer := run + [Seal(h, entry, last)];
    forall i | 0 <= i < |longer| ensures SoundAt(h, longer, previous, i) {
      if i < |run| {
        assert SoundAt(h, run, previous, i);
      }
    }
  }

  // ---- What the chain proves ----

  /** Equal in everything a reader is shown; the hash column may differ in the case of its letters. */
  ghost predicate SameRecord(a: Record, b: Record) {
    a.sequence == b.sequence && a.prevHash == b.prevHash && a.entry == b.entry && EqualFold(a.hash, b.hash)
  }

  ghost predicate SameLog(a: seq<Record>, b: seq<Record>) {
    |a| == |b| && forall i :: 0 <= i < |a| ==> SameRecord(a[i], b[i])
  }

  /** Two different contents the hash does not tell apart. */
  ghost predicate Collision(h: Digest, a: Record, b: Record) {
    ContentOf(a) != ContentOf(b) && EqualFold(ChainHash(h, a), ChainHash(h, b))
  }

  /** With the program's encoding that is a collision of the digest itself, on two different inputs. */
  lemma CollisionsAreTheDigests(digest: seq<Byte> -> Text, a: Record, b: Record)
    requires IsInt64(a.sequence) && IsInt64(b.sequence)
    requires Collision(OverBytes(digest), a, b)
    ensures Encode(ContentOf(a)) != Encode(ContentOf(b))
    ensures EqualFold(digest(Encode(ContentOf(a))), digest(Encode(ContentOf(b))))
  {
    if Encode(ContentOf(a)) == Encode(ContentOf(b)) {
      EncodeIsInjective(ContentOf(a), ContentOf(b));
    }
  }

  /**
   * The last hash fixes the whole log: two sound runs after the same record, of one length and
   * ending in one hash, are the same record for record, unless the digest collides on one of them.
   */
  lemma {:induction false} LastHashFixesTheLog(h: Digest, a: seq<Record>, b: seq<Record>, previous: Record)
    requires Sound(h, a, previous) && Sound(h, b, previous)
    requires |a| == |b| && (|a| > 0 ==> EqualFold(a[|a| - 1].hash, b[|b| - 1].hash))
    ensures SameLog(a, b) || exists i :: 0 <= i < |a| && Collision(h, a[i], b[i])
  {
    if |a| > 0 {
      var n := |a| - 1;
      assert SoundAt(h, a, previous, n) && SoundAt(h, b, previous, n);
      SoundRunsAreDense(h, a, previous, n);
      SoundRunsAreDense(h, b, previous, n);
      if !Collision(h, a[n], b[n]) {
        OneHashOneRecord(h, a[n], b[n]);
        SoundPrefix(h, a, previous, n);
        SoundPrefix(h, b, previous, n);
        LastHashFixesTheLog(h, a[..n], b[..n], previous);
        if !SameLog(a[..n], b[..n]) {
          var i :| 0 <= i < n && Collision(h, a[..n][i], b[..n][i]);
          assert Collision(h, a[i], b[i]);
        }
      }
    }
  }

  lemma OneHashOneRecord(h: Digest, a: Record, b: Record)
    requires EqualFold(ChainHash(h, a), a.hash) && EqualFold(ChainHash(h, b), b.hash) && EqualFold(a.hash, b.hash)
    requires a.sequence == b.sequence && !Collision(h, a, b)
    ensures SameRecord(a, b)
  {
    FoldChains(ChainHash(h, a), a.hash, b.hash, ChainHash(h, b));
  }

  lemma FoldChains(w: Text, x: Text, y: Text, z: Text)
    requires EqualFold(w, x) && EqualFold(x, y) && EqualFold(z, y)
    ensures EqualFold(w, z)
  {
    forall i | 0 <= i < |w| ensures Lower(w[i]) == Lower(z[i]) {
      assert Lower(w[i]) == Lower(x[i]) && Lower(x[i]) == Lower(y[i]) && Lower(z[i]) == Lower(y[i]);
    }
  }

  lemma SoundPrefix(h: Digest, records: seq<Record>, previous: Record, n: nat)
    requires Sound(h, records, previous) && n <= |records|
    ensures Sound(h, records[..n], previous)
  {
    forall i | 0 <= i < n ensures SoundAt(h, records[..n], previous, i) {
      assert SoundAt(h, records, previous, i);
    }
  }

  /**
   * Any edit that leaves the last row's hash as it was is found: once a log and its anchor agree, a
   * different log ending in that hash does not verify against the anchor.
   */
  lemma EditsBeforeTheEndAreFound(h: Digest, log: seq<Record>, edited: seq<Record>, anchor: Anchor)
    requires Intact(h, log, anchor) && log != []
    requires !SameLog(log, edited)
    requires edited != [] ==> EqualFold(log[|log| - 1].hash, edited[|edited| - 1].hash)
    requires forall i :: 0 <= i < |log| && i < |edited| ==> !Collision(h, log[i], edited[i])
    ensures !Intact(h, edited, anchor)
  {
    IntactMeansSoundAndComplete(h, log, anchor);
    IntactMeansSoundAndComplete(h, edited, anchor);
    if Sound(h, edited, Nothing) && |log| == |edited| {
      LastHashFixesTheLog(h, log, edited, Nothing);
    }
  }

  /**
   * The anchor carries the last hash and the verifier compares only its sequence. Of all the logs
   * that verify against an anchor, the one it was taken from is told apart by exactly that hash.
   */
  lemma AnchorHashDecides(h: Digest, log: seq<Record>, other: seq<Record>, anchor: Anchor)
    requires log != [] && anchor.hash == log[|log| - 1].hash
    requires Intact(h, log, anchor)
    requires Intact(h, other, anchor)
    requires forall i :: 0 <= i < |log| && i < |other| ==> !Collision(h, log[i], other[i])
    ensures other != [] && (SameLog(log, other) <==> EqualFold(anchor.hash, other[|other| - 1].hash))
  {
    IntactMeansSoundAndComplete(h, log, anchor);
    IntactMeansSoundAndComplete(h, other, anchor);
    if EqualFold(anchor.hash, other[|other| - 1].hash) {
      LastHashFixesTheLog(h, log, other, Nothing);
    }
  }

  lemma OneRecordLogIsIntact(h: Digest, entry: Entry, anchor: Anchor)
    requires forall content :: h(content) != []
    requires anchor.present && anchor.sequence == 1
    ensures Intact(h, [Seal(h, entry, Nothing)], anchor)
  {
    SealExtends(h, [], Nothing, entry);
    assert [] + [Seal(h, entry, Nothing)] == [Seal(h, entry, Nothing)];
    IntactMeansSoundAndComplete(h, [Seal(h, entry, Nothing)], anchor);
  }

  /** Entries sealed one after the other onto a run. */
  function SealAll(h: Digest, run: seq<Record>, entries: seq<Entry>): (longer: seq<Record>)
    ensures |longer| == |run| + |entries| && run <= longer
    ensures forall i :: 0 <= i < |entries| ==> longer[|run| + i].entry == entries[i]
    decreases |entries|
  {
    if entries == [] then run
    else
      var last := if run == [] then Nothing else run[|run| - 1];
      SealAll(h, run + [Seal(h, entries[0], last)], entries[1..])
  }

  lemma {:induction false} SealAllKeepsSound(h: Digest, run: seq<Record>, entries: seq<Entry>)
    requires Sound(h, run, Nothing) && forall content :: h(content) != []
    ensures Sound(h, SealAll(h, run, entries), Nothing)
    decreases |entries|
  {
    if entries != [] {
      var last := if run == [] then Nothing else run[|run| - 1];
      if run != [] {
        SoundHashIsThere(h, run, Nothing, |run| - 1);
      }
      SealExtends(h, run, Nothing, entries[0]);
      SealAllKeepsSound(h, run + [Seal(h, entries[0], last)], entries[1..]);
    }
  }

  lemma SoundHashIsThere(h: Digest, records: seq<Record>, previous: Record, i: nat)
    requires Sound(h, records, previous) && i < |records| && forall content :: h(content) != []
    ensures records[i].hash != []
  {
    assert SoundAt(h, records, previous, i);
    assert h(ContentOf(records[i])) != [];
  }

  /** Some entry differs from the one at its place in the log. */
  predicate Differ(log: seq<Record>, kept: seq<Record>, entries: seq<Entry>)
    requires |log| == |kept| + |entries|
  {
    exists i :: 0 <= i < |entries| && entries[i] != log[|kept| + i].entry
  }

  /**
   * So a tail rewritten and rehashed to the same length verifies: take any log that does, keep any
   * prefix of it and seal any other entries onto that, as many as were cut.
   */
  lemma SequenceAloneDoesNotDecide(h: Digest, log: seq<Record>, kept: seq<Record>, entries: seq<Entry>, anchor: Anchor)
    requires Intact(h, log, anchor) && forall content :: h(content) != []
    requires kept <= log && |log| == |kept| + |entries|
    ensures Intact(h, SealAll(h, kept, entries), anchor)
    ensures Differ(log, kept, entries) ==> !SameLog(log, SealAll(h, kept, entries))
  {
    IntactMeansSoundAndComplete(h, log, anchor);
    RewrittenTailIsSound(h, log, kept, entries);
    SameLengthVerifies(h, SealAll(h, kept, entries), anchor);
    OtherEntriesOtherLog(log, SealAll(h, kept, entries), kept, entries);
  }

  lemma RewrittenTailIsSound(h: Digest, log: seq<Record>, kept: seq<Record>, entries: seq<Entry>)
    requires Sound(h, log, Nothing) && kept <= log && forall content :: h(content) != []
    ensures Sound(h, SealAll(h, kept, entries), Nothing)
  {
    assert kept == log[..|kept|];
    SoundPrefix(h, log, Nothing, |kept|);
    SealAllKeepsSound(h, kept, entries);
  }

  lemma SameLengthVerifies(h: Digest, log: seq<Record>, anchor: Anchor)
    requires anchor.present && Sound(h, log, Nothing) && |log| == anchor.sequence
    ensures Intact(h, log, anchor)
  {
    IntactMeansSoundAndComplete(h, log, anchor);
  }

  lemma OtherEntriesOtherLog(log: seq<Record>, other: seq<Record>, kept: seq<Record>, entries: seq<Entry>)
    requires |log| == |other| == |kept| + |entries|
    requires forall i :: 0 <= i < |entries| ==> other[|kept| + i].entry == entries[i]
    ensures Differ(log, kept, entries) ==> !SameLog(log, other)
  {
    if Differ(log, kept, entries) {
      var i :| 0 <= i < |entries| && entries[i] != log[|kept| + i].entry;
      assert !SameRecord(log[|kept| + i], other[|kept| + i]);
    }
  }
}
