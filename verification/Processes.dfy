/** A project's workloads: its own list with the repository's declarations merged over it by name. */
module Processes {
  import opened Common
  import opened FirstMentions

  const WebProcessName := "web"

  datatype Kind = Unset | Worker | Service | Cron | TaskRun

  /** A workload; `rest` is everything the project's own declaration carries beyond name and type. */
  datatype Process = Process(name: string, kind: Kind, rest: Option<string>)

  datatype Declared = Declared(name: string, kind: Kind)

  function FromDeclared(d: Declared): Process {
    Process(d.name, d.kind, None)
  }

  function Names(all: seq<Process>): (names: seq<string>)
    ensures |names| == |all|
    ensures forall i :: 0 <= i < |all| ==> names[i] == all[i].name
  {
    seq(|all|, i requires 0 <= i < |all| => all[i].name)
  }

  function DeclaredNames(declared: seq<Declared>): (names: seq<string>)
    ensures |names| == |declared|
    ensures forall i :: 0 <= i < |declared| ==> names[i] == declared[i].name
  {
    Names(seq(|declared|, i requires 0 <= i < |declared| => FromDeclared(declared[i])))
  }

  /** Where a workload is first named, or -1. */
  method IndexOfProcess(all: seq<Process>, name: string) returns (at: int)
    ensures at == if name in Names(all) then FirstMention(Names(all), name) else -1
  {
    var names := Names(all);
    for i := 0 to |all|
      invariant name !in names[..i]
    {
      if all[i].name == name {
        FirstMentionIs(names, name, i);
        return i;
      }
      assert names[..i + 1] == names[..i] + [names[i]];
    }
    assert names[..|all|] == names;
    return -1;
  }

  /** One declaration merged in: over the first workload of its name, or at the end. */
  function Put(all: seq<Process>, d: Declared): seq<Process> {
    if d.name in Names(all) then all[FirstMention(Names(all), d.name) := FromDeclared(d)]
    else all + [FromDeclared(d)]
  }

  function Merged(own: seq<Process>, declared: seq<Declared>): seq<Process> {
    if declared == [] then own
    else Put(Merged(own, declared[..|declared| - 1]), declared[|declared| - 1])
  }

  method AllProcesses(own: seq<Process>, declared: seq<Declared>) returns (all: seq<Process>)
    ensures all == Merged(own, declared)
  {
    all := own;
    for i := 0 to |declared|
      invariant all == Merged(own, declared[..i])
    {
      assert declared[..i + 1][..i] == declared[..i];
      var spec := FromDeclared(declared[i]);
      var at := IndexOfProcess(all, declared[i].name);
      if at >= 0 {
        all := all[at := spec];
        continue;
      }
      all := all + [spec];
    }
    assert declared[..|declared|] == declared;
  }

  /** What the next deploy would run: the declared list replaces the project's own outright. */
  method ProcessNames(own: seq<Process>, declared: seq<Declared>) returns (names: seq<string>)
    ensures names == [WebProcessName] + if declared != [] then DeclaredNames(declared) else Names(own)
  {
    names := [WebProcessName];
    if |declared| > 0 {
      for i := 0 to |declared|
        invariant names == [WebProcessName] + DeclaredNames(declared)[..i]
      {
        names := names + [declared[i].name];
      }
      assert DeclaredNames(declared)[..|declared|] == DeclaredNames(declared);
      return names;
    }
    for i := 0 to |own|
      invariant names == [WebProcessName] + Names(own)[..i]
    {
      names := names + [own[i].name];
    }
    assert Names(own)[..|own|] == Names(own);
  }

  method AllProcessNames(own: seq<Process>, declared: seq<Declared>) returns (names: seq<string>)
    ensures names == [WebProcessName] + Names(Merged(own, declared))
  {
    var processes := AllProcesses(own, declared);
    names := [WebProcessName];
    for i := 0 to |processes|
      invariant names == [WebProcessName] + Names(processes)[..i]
    {
      names := names + [processes[i].name];
    }
    assert Names(processes)[..|processes|] == Names(processes);
  }

  /** The names after merging: the project's own as they stood, then each new one as first declared. */
  lemma {:induction false} MergedNames(own: seq<Process>, declared: seq<Declared>)
    ensures Names(own) <= Names(Merged(own, declared))
    ensures forall name :: name in Names(Merged(own, declared)) <==> name in Names(own) + DeclaredNames(declared)
    ensures Distinct(Names(own)) ==> Names(Merged(own, declared)) == Dedup(Names(own) + DeclaredNames(declared))
  {
    var base := Names(own);
    if declared == [] {
      assert base + DeclaredNames(declared) == base;
      if Distinct(base) {
        DedupFixesDistinct(base);
      }
    } else {
      var front, d := declared[..|declared| - 1], declared[|declared| - 1];
      MergedNames(own, front);
      var before := Merged(own, front);
      PutNames(before, d);
      assert base + DeclaredNames(declared) == base + DeclaredNames(front) + [d.name];
      DedupSnoc(base + DeclaredNames(front), d.name);
    }
  }

  lemma PutNames(all: seq<Process>, d: Declared)
    ensures Names(Put(all, d)) == Extend(Names(all), d.name)
  {
  }

  /** The last declaration of a name. */
  function LastDeclared(declared: seq<Declared>, name: string): (d: Option<Declared>)
    ensures d.Some? ==> d.value in declared && d.value.name == name
    ensures d.Some? <==> name in DeclaredNames(declared)
  {
    if declared == [] then None
    else if declared[|declared| - 1].name == name then Some(declared[|declared| - 1])
    else
      var front := declared[..|declared| - 1];
      assert DeclaredNames(declared) == DeclaredNames(front) + [declared[|declared| - 1].name];
      LastDeclared(front, name)
  }

  /**
   * What stands at each place: the last declaration of the name that is first met there, and
   * otherwise the project's own workload, untouched.
   */
  lemma {:induction false} MergedAt(own: seq<Process>, declared: seq<Declared>, i: nat)
    requires i < |Merged(own, declared)|
    ensures var all := Merged(own, declared);
            var d := LastDeclared(declared, all[i].name);
            if d.Some? && all[i].name !in Names(all)[..i] then all[i] == Process(d.value.name, d.value.kind, None)
            else i < |own| && all[i] == own[i]
  {
    if declared != [] {
      var front, d := declared[..|declared| - 1], declared[|declared| - 1];
      var before, all := Merged(own, front), Merged(own, declared);
      PutNames(before, d);
      if i < |before| {
        MergedAt(own, front, i);
        assert Names(before)[..i] == Names(all)[..i];
        if all[i].name == d.name && d.name !in Names(all)[..i] {
          FirstMentionIs(Names(before), d.name, i);
        }
        if d.name in Names(before)[..i] {
          FirstMentionEarlier(Names(before), d.name, i);
        }
      }
    }
  }

  lemma FirstMentionEarlier(list: seq<string>, name: string, i: nat)
    requires i <= |list| && name in list[..i]
    ensures name in list && FirstMention(list, name) < i
  {
    FirstMentionInPrefix(list, i, name);
  }

  /** Looking a workload up by name: the first of that name, as every reader of the list does. */
  function Lookup(all: seq<Process>, name: string): Option<Process> {
    if name in Names(all) then Some(all[FirstMention(Names(all), name)]) else None
  }

  /** A declared workload wins its name, the latest declaration of it; every other name keeps the project's. */
  lemma DeclaredWinsItsName(own: seq<Process>, declared: seq<Declared>, name: string)
    ensures Lookup(Merged(own, declared), name)
            == var d := LastDeclared(declared, name);
               if d.Some? then Some(Process(name, d.value.kind, None)) else Lookup(own, name)
  {
    var all := Merged(own, declared);
    MergedNames(own, declared);
    if name in Names(all) {
      var at := FirstMention(Names(all), name);
      assert all[at].name == name;
      MergedAt(own, declared, at);
      if LastDeclared(declared, name).None? {
        assert Names(own)[..at] == Names(all)[..at];
        FirstMentionIs(Names(own), name, at);
      }
    }
  }

  /** Merging what was already merged is no change, duplicates on either side included. */
  lemma MergingAgainChangesNothing(own: seq<Process>, declared: seq<Declared>)
    ensures Merged(Merged(own, declared), declared) == Merged(own, declared)
  {
    var once := Merged(own, declared);
    var twice := Merged(once, declared);
    MergedNames(own, declared);
    NamesUnchanged(once, declared);
    forall i | 0 <= i < |once| ensures twice[i] == once[i] {
      assert Names(twice)[i] == Names(once)[i];
      MergedAt(own, declared, i);
      MergedAt(once, declared, i);
    }
  }

  lemma {:induction false} NamesUnchanged(own: seq<Process>, declared: seq<Declared>)
    requires forall name :: name in DeclaredNames(declared) ==> name in Names(own)
    ensures Names(Merged(own, declared)) == Names(own)
  {
    if declared != [] {
      var front, d := declared[..|declared| - 1], declared[|declared| - 1];
      assert DeclaredNames(declared) == DeclaredNames(front) + [d.name];
      NamesUnchanged(own, front);
      PutNames(Merged(own, front), d);
    }
  }

  /**
   * The names the next deploy runs are always among the names a workload could have, and the two
   * lists hold the same names exactly when nothing is declared or everything of the project's is.
   */
  lemma DeployedNamesAreAmongAll(own: seq<Process>, declared: seq<Declared>, deployed: seq<string>, all: seq<string>)
    requires deployed == [WebProcessName] + if declared != [] then DeclaredNames(declared) else Names(own)
    requires all == [WebProcessName] + Names(Merged(own, declared))
    ensures forall name :: name in deployed ==> name in all
    ensures (forall name :: name in all ==> name in deployed) <==>
            declared == [] || forall name :: name in Names(own) ==> name == WebProcessName || name in DeclaredNames(declared)
    ensures Distinct(Names(own)) && WebProcessName !in Names(own) + DeclaredNames(declared) ==> Distinct(all)
  {
    MergedNames(own, declared);
    if Distinct(Names(own)) {
      DedupElements(Names(own) + DeclaredNames(declared));
    }
    if declared != [] && forall name :: name in all ==> name in deployed {
      forall name | name in Names(own) ensures name == WebProcessName || name in DeclaredNames(declared) {
        assert name in Names(own) + DeclaredNames(declared);
        assert name in deployed;
      }
    }
  }
}
