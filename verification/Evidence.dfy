/** The images of one Build: which carry signed evidence, and where the gate rows about each are kept. */
module Evidence {
  import opened Common
  import opened FirstMentions

  const WebProcessName := "web"

  datatype Phase = Pending | Running | Succeeded | Failed

  datatype Artifact = Artifact(digest: string, attestedAt: Option<int>)

  datatype Gate = Gate(name: string, passed: bool)

  /** A list of gate rows as a place that is written through a pointer. */
  class Rows {
    var rows: seq<Gate>

    constructor ()
      ensures rows == []
    {
      rows := [];
    }
  }

  datatype Workload = Workload(name: string, phase: Phase, artifact: Option<Artifact>, gates: Rows)

  /** An image in the list every reader of evidence goes through; the empty name is the web process. */
  datatype Entry = Entry(workload: string, artifact: Artifact)

  predicate Attested(artifact: Option<Artifact>) {
    artifact.Some? && artifact.value.attestedAt.Some?
  }

  function WorkloadNames(workloads: seq<Workload>): (names: seq<string>)
    ensures |names| == |workloads|
    ensures forall i :: 0 <= i < |names| ==> names[i] == workloads[i].name
  {
    seq(|workloads|, i requires 0 <= i < |workloads| => workloads[i].name)
  }

  /** Where a lookup by name lands: the Build itself, one workload's row, or nowhere. */
  datatype Place = Web | Row(i: nat) | Nowhere

  function Locate(names: seq<string>, workload: string): (place: Place)
    ensures place.Row? ==> place.i < |names| && names[place.i] == workload && workload !in names[..place.i]
    ensures place.Nowhere? ==> workload !in names
  {
    if workload == "" || workload == WebProcessName then Web
    else if workload in names then Row(FirstMention(names, workload)) else Nowhere
  }

  lemma LocateIs(names: seq<string>, i: nat)
    requires i < |names| && names[i] !in names[..i] && names[i] != "" && names[i] != WebProcessName
    ensures Locate(names, names[i]) == Row(i)
  {
    FirstMentionIs(names, names[i], i);
  }

  predicate Proper(names: seq<string>) {
    Distinct(names) && "" !in names && WebProcessName !in names
  }

  /** Every row can be found under its own name exactly when the schema's three rules about names hold. */
  lemma EveryRowIsFoundExactlyWhenProper(names: seq<string>)
    ensures Proper(names) <==> forall i :: 0 <= i < |names| ==> Locate(names, names[i]) == Row(i)
  {
    if Proper(names) {
      forall i | 0 <= i < |names| ensures Locate(names, names[i]) == Row(i) {
        assert names[i] in names;
        LocateIs(names, i);
      }
    }
    if forall i :: 0 <= i < |names| ==> Locate(names, names[i]) == Row(i) {
      forall i, j | 0 <= i < j < |names| ensures names[i] != names[j] {
        assert Locate(names, names[i]) == Row(i) && Locate(names, names[j]) == Row(j);
      }
      assert forall i :: 0 <= i < |names| ==> Locate(names, names[i]) != Web;
    }
  }

  /** Both lists are in order: the web process's part first, and then each row's own, one after the other. */
  lemma {:induction false} RecordedInOrder(artifact: Option<Artifact>, x: seq<Workload>, y: seq<Workload>)
    ensures Recorded(artifact, x + y) == Recorded(artifact, x) + Recorded(None, y)
  {
    if y == [] {
      NothingAfter(x);
    } else {
      RecordedInOrder(artifact, x, y[..|y| - 1]);
      FrontOfConcat(x, y);
    }
  }

  lemma {:induction false} MissingInOrder(artifact: Option<Artifact>, x: seq<Workload>, y: seq<Workload>)
    ensures Missing(artifact, x + y) == Missing(artifact, x) + Missing(Some(Artifact("", Some(0))), y)
  {
    if y == [] {
      NothingAfter(x);
    } else {
      MissingInOrder(artifact, x, y[..|y| - 1]);
      FrontOfConcat(x, y);
    }
  }

  lemma OneRowsPart(artifact: Option<Artifact>, workload: Workload)
    ensures Recorded(artifact, []) == if artifact.Some? then [Entry("", artifact.value)] else []
    ensures Recorded(None, [workload])
         == if workload.artifact.Some? then [Entry(workload.name, workload.artifact.value)] else []
    ensures Missing(artifact, []) == if artifact.Some? && artifact.value.attestedAt.Some? then [] else ["web"]
    ensures Missing(Some(Artifact("", Some(0))), [workload])
         == if workload.phase == Failed || (workload.artifact.Some? && workload.artifact.value.attestedAt.Some?) then []
            else [workload.name]
  {
    assert [workload][..0] == [];
  }

  /** The web process answers to the empty name and to its own, whatever the rows are called. */
  lemma WebHasTwoNames(names: seq<string>)
    ensures Locate(names, "") == Web && Locate(names, "web") == Web
    ensures forall name :: name != "" && name != "web" ==> Locate(names, name) != Web
  {
  }

  /** The evidence a lookup by name answers, on the values of one Build. */
  function Evidence(artifact: Option<Artifact>, workloads: seq<Workload>, workload: string): Option<Artifact> {
    match Locate(WorkloadNames(workloads), workload)
    case Web => artifact
    case Row(i) => workloads[i].artifact
    case Nowhere => None
  }

  class Build {
    var artifact: Option<Artifact>
    var workloads: seq<Workload>
    const gates: Rows

    constructor (artifact: Option<Artifact>, workloads: seq<Workload>)
      ensures this.artifact == artifact && this.workloads == workloads && fresh(gates) && gates.rows == []
    {
      this.artifact := artifact;
      this.workloads := workloads;
      gates := new Rows();
    }

    /** Each list is its own place in memory. */
    predicate Valid()
      reads this
    {
      && (forall i :: 0 <= i < |workloads| ==> workloads[i].gates != gates)
      && forall i, j :: 0 <= i < j < |workloads| ==> workloads[i].gates != workloads[j].gates
    }

    function Names(): seq<string>
      reads this
    {
      WorkloadNames(workloads)
    }

    method Artifacts() returns (entries: seq<Entry>)
      ensures entries == Recorded(artifact, workloads)
    {
      entries := [];
      if artifact.Some? {
        entries := entries + [Entry("", artifact.value)];
      }
      for i := 0 to |workloads|
        invariant entries == Recorded(artifact, workloads[..i])
      {
        assert workloads[..i + 1][..i] == workloads[..i];
        if workloads[i].artifact.None? {
          continue;
        }
        entries := entries + [Entry(workloads[i].name, workloads[i].artifact.value)];
      }
      assert workloads[..|workloads|] == workloads;
    }

    method ArtifactFor(workload: string) returns (found: Option<Artifact>)
      ensures found == Evidence(artifact, workloads, workload)
    {
      if workload == "" || workload == WebProcessName {
        return artifact;
      }
      var i := Find(workloads, workload);
      return if i < |workloads| then workloads[i].artifact else None;
    }

    method ArtifactsWithoutEvidence() returns (missing: seq<string>)
      ensures missing == Missing(artifact, workloads)
    {
      missing := [];
      if artifact.None? || artifact.value.attestedAt.None? {
        missing := missing + [WebProcessName];
      }
      for i := 0 to |workloads|
        invariant missing == Missing(artifact, workloads[..i])
      {
        assert workloads[..i + 1][..i] == workloads[..i];
        var workload := workloads[i];
        if workload.phase == Failed {
          continue;
        }
        if workload.artifact.None? || workload.artifact.value.attestedAt.None? {
          missing := missing + [workload.name];
        }
      }
      assert workloads[..|workloads|] == workloads;
    }

    method FullyAttested() returns (full: bool)
      ensures full <==>
        && artifact.Some? && artifact.value.attestedAt.Some?
        && forall i :: 0 <= i < |workloads| && workloads[i].phase != Failed ==>
             workloads[i].artifact.Some? && workloads[i].artifact.value.attestedAt.Some?
    {
      var missing := ArtifactsWithoutEvidence();
      MissingIsExact(artifact, workloads);
      return |missing| == 0;
    }

    /** The place itself, so that a write through it lands on the Build; a stray name gets a place of its own. */
    method GatesFor(workload: string) returns (rows: Rows)
      ensures match Locate(Names(), workload)
              case Web => rows == gates
              case Row(i) => rows == workloads[i].gates
              case Nowhere => fresh(rows) && rows.rows == []
    {
      if workload == "" || workload == WebProcessName {
        return gates;
      }
      var i := Find(workloads, workload);
      if i < |workloads| {
        return workloads[i].gates;
      }
      rows := new Rows();
    }

    /** A gate's result written through GatesFor changes the rows of that one image and nothing else. */
    method RecordGate(workload: string, gate: Gate)
      requires Valid()
      modifies gates, set i | 0 <= i < |workloads| :: workloads[i].gates
      ensures Valid() && artifact == old(artifact) && workloads == old(workloads)
      ensures gates.rows == old(gates.rows) + if Locate(Names(), workload).Web? then [gate] else []
      ensures forall i :: 0 <= i < |workloads| ==>
        workloads[i].gates.rows
        == old(workloads[i].gates.rows) + if Locate(Names(), workload) == Row(i) then [gate] else []
    {
      var rows := GatesFor(workload);
      rows.rows := rows.rows + [gate];
    }
  }

  /** A row's position, or the number of rows. */
  method Find(workloads: seq<Workload>, workload: string) returns (i: nat)
    requires workload != "" && workload != WebProcessName
    ensures i <= |workloads|
    ensures Locate(WorkloadNames(workloads), workload) == if i < |workloads| then Row(i) else Nowhere
  {
    var names := WorkloadNames(workloads);
    i := 0;
    while i < |workloads|
      invariant i <= |workloads| && workload !in names[..i]
    {
      if workloads[i].name == workload {
        LocateIs(names, i);
        return;
      }
      assert names[..i + 1] == names[..i] + [names[i]];
      i := i + 1;
    }
    assert names[..|names|] == names;
  }

  function Recorded(artifact: Option<Artifact>, workloads: seq<Workload>): seq<Entry> {
    if workloads == [] then if artifact.Some? then [Entry("", artifact.value)] else []
    else
      var last := workloads[|workloads| - 1];
      Recorded(artifact, workloads[..|workloads| - 1])
      + if last.artifact.Some? then [Entry(last.name, last.artifact.value)] else []
  }

  function Missing(artifact: Option<Artifact>, workloads: seq<Workload>): seq<string> {
    if workloads == [] then if Attested(artifact) then [] else [WebProcessName]
    else
      var last := workloads[|workloads| - 1];
      Missing(artifact, workloads[..|workloads| - 1]) + if Settled(last) then [] else [last.name]
  }

  /** A workload that ships no image, or ships an attested one. */
  predicate Settled(workload: Workload) {
    workload.phase == Failed || Attested(workload.artifact)
  }

  lemma {:induction false} MissingIsExact(artifact: Option<Artifact>, workloads: seq<Workload>)
    ensures Missing(artifact, workloads) == [] <==>
            Attested(artifact) && forall i :: 0 <= i < |workloads| ==> Settled(workloads[i])
    ensures forall name :: name in Missing(artifact, workloads) <==>
              || (name == "web" && !(artifact.Some? && artifact.value.attestedAt.Some?))
              || exists i :: 0 <= i < |workloads| && workloads[i].name == name && workloads[i].phase != Failed
                   && !(workloads[i].artifact.Some? && workloads[i].artifact.value.attestedAt.Some?)
  {
    if workloads != [] {
      var m := |workloads| - 1;
      MissingIsExact(artifact, workloads[..m]);
      assert forall i :: 0 <= i < m ==> workloads[..m][i] == workloads[i];
    }
  }

  lemma {:induction false} RecordedIsExact(artifact: Option<Artifact>, workloads: seq<Workload>, entry: Entry)
    ensures entry in Recorded(artifact, workloads) <==>
              || (entry.workload == "" && artifact == Some(entry.artifact))
              || exists i :: 0 <= i < |workloads| && workloads[i].name == entry.workload
                             && workloads[i].artifact == Some(entry.artifact)
  {
    if workloads != [] {
      var m := |workloads| - 1;
      RecordedIsExact(artifact, workloads[..m], entry);
      assert forall i :: 0 <= i < m ==> workloads[..m][i] == workloads[i];
    }
  }

  /** Where names are proper, the list and the lookup tell one story, and nothing recorded is unlisted. */
  lemma ListAndLookupAgree(artifact: Option<Artifact>, workloads: seq<Workload>, entry: Entry)
    requires Proper(WorkloadNames(workloads)) && entry.workload != WebProcessName
    ensures entry in Recorded(artifact, workloads) <==> Evidence(artifact, workloads, entry.workload) == Some(entry.artifact)
  {
    var names := WorkloadNames(workloads);
    EveryRowIsFoundExactlyWhenProper(names);
    RecordedIsExact(artifact, workloads, entry);
    if i :| 0 <= i < |workloads| && workloads[i].name == entry.workload
            && workloads[i].artifact == Some(entry.artifact) {
      assert Locate(names, names[i]) == Row(i);
    }
    if entry.workload == "" {
      assert forall i :: 0 <= i < |workloads| ==> names[i] != "";
    }
  }

  /** Fully attested means every image deployed is found, by its name, with a signed record. */
  lemma FullMeansEveryDeployedImage(artifact: Option<Artifact>, workloads: seq<Workload>)
    requires Proper(WorkloadNames(workloads))
    ensures Missing(artifact, workloads) == [] <==>
            && Attested(Evidence(artifact, workloads, ""))
            && forall i :: 0 <= i < |workloads| && workloads[i].phase != Failed ==>
                 Attested(Evidence(artifact, workloads, workloads[i].name))
  {
    var names := WorkloadNames(workloads);
    EveryRowIsFoundExactlyWhenProper(names);
    MissingIsExact(artifact, workloads);
    assert forall i :: 0 <= i < |workloads| ==> Locate(names, names[i]) == Row(i);
  }

  /** Signed records on everything listed are not enough: an image with no record is not on the list. */
  lemma AllListedAttestedIsNotFull(rows: Rows)
    ensures var signed, built := Artifact("a", Some(1)), [Workload("api", Succeeded, None, rows)];
            && (forall entry :: entry in Recorded(Some(signed), built) ==> entry.artifact.attestedAt.Some?)
            && Missing(Some(signed), built) == ["api"]
  {
    var signed, built := Artifact("a", Some(1)), [Workload("api", Succeeded, None, rows)];
    assert built[..0] == [];
    assert Recorded(Some(signed), built) == [Entry("", signed)];
    assert Missing(Some(signed), built) == ["api"];
  }
}
