/**
 * The security posture: one table of fields, and the three ways two declarations are merged
 * through it. Each merge is a loop over the table here as it is in the program, and is proved
 * equal to a form that has no table and no loop; the laws are then proved of those forms.
 */
module Security {
  import opened Common
  import opened FirstMentions
  import opened Capabilities

  datatype SecuritySpec = SecuritySpec(
    runAsNonRoot: bool,
    runAsUser: nat,
    runAsGroup: nat,
    fsGroup: nat,
    fsGroupChangePolicy: string,
    readOnlyRootFilesystem: bool,
    allowPrivilegeEscalation: bool,
    dropCapabilities: seq<string>)

  const Empty := SecuritySpec(false, 0, 0, 0, "", false, false, [])

  datatype Field =
    | RunAsNonRoot | RunAsUser | RunAsGroup | FSGroup | FSGroupChangePolicy
    | ReadOnlyRootFilesystem | AllowPrivilegeEscalation | DropCapabilities

  const SecurityFields: seq<Field> :=
    [RunAsNonRoot, RunAsUser, RunAsGroup, FSGroup, FSGroupChangePolicy,
     ReadOnlyRootFilesystem, AllowPrivilegeEscalation, DropCapabilities]

  /** A field is set when it is not its zero value. */
  predicate Sets(s: SecuritySpec, f: Field) {
    match f
    case RunAsNonRoot => s.runAsNonRoot
    case RunAsUser => s.runAsUser > 0
    case RunAsGroup => s.runAsGroup > 0
    case FSGroup => s.fsGroup > 0
    case FSGroupChangePolicy => s.fsGroupChangePolicy != ""
    case ReadOnlyRootFilesystem => s.readOnlyRootFilesystem
    case AllowPrivilegeEscalation => s.allowPrivilegeEscalation
    case DropCapabilities => |s.dropCapabilities| > 0
  }

  function Apply(f: Field, onto: SecuritySpec, from: SecuritySpec): (written: SecuritySpec)
    ensures Same(f, written, from)
    ensures forall g: Field :: g != f ==> Same(g, written, onto)
  {
    match f
    case RunAsNonRoot => onto.(runAsNonRoot := from.runAsNonRoot)
    case RunAsUser => onto.(runAsUser := from.runAsUser)
    case RunAsGroup => onto.(runAsGroup := from.runAsGroup)
    case FSGroup => onto.(fsGroup := from.fsGroup)
    case FSGroupChangePolicy => onto.(fsGroupChangePolicy := from.fsGroupChangePolicy)
    case ReadOnlyRootFilesystem => onto.(readOnlyRootFilesystem := from.readOnlyRootFilesystem)
    case AllowPrivilegeEscalation => onto.(allowPrivilegeEscalation := from.allowPrivilegeEscalation)
    case DropCapabilities => onto.(dropCapabilities := from.dropCapabilities)
  }

  predicate Same(f: Field, a: SecuritySpec, b: SecuritySpec) {
    match f
    case RunAsNonRoot => a.runAsNonRoot == b.runAsNonRoot
    case RunAsUser => a.runAsUser == b.runAsUser
    case RunAsGroup => a.runAsGroup == b.runAsGroup
    case FSGroup => a.fsGroup == b.fsGroup
    case FSGroupChangePolicy => a.fsGroupChangePolicy == b.fsGroupChangePolicy
    case ReadOnlyRootFilesystem => a.readOnlyRootFilesystem == b.readOnlyRootFilesystem
    case AllowPrivilegeEscalation => a.allowPrivilegeEscalation == b.allowPrivilegeEscalation
    case DropCapabilities => a.dropCapabilities == b.dropCapabilities
  }

  function Position(f: Field): nat {
    match f
    case RunAsNonRoot => 0
    case RunAsUser => 1
    case RunAsGroup => 2
    case FSGroup => 3
    case FSGroupChangePolicy => 4
    case ReadOnlyRootFilesystem => 5
    case AllowPrivilegeEscalation => 6
    case DropCapabilities => 7
  }

  /** The table lists every field exactly once. */
  lemma TableIsComplete(f: Field)
    ensures Position(f) < |SecurityFields| && SecurityFields[Position(f)] == f && f in SecurityFields
    ensures forall i :: 0 <= i < |SecurityFields| ==> Position(SecurityFields[i]) == i
  {
  }

  /** A walk over the table has rewritten the first `i` fields of `base` to those of `target`. */
  ghost predicate Written(i: nat, walked: SecuritySpec, base: SecuritySpec, target: SecuritySpec) {
    forall f: Field :: Same(f, walked, if Position(f) < i then target else base)
  }

  lemma WalkStep(i: nat, walked: SecuritySpec, next: SecuritySpec, base: SecuritySpec, target: SecuritySpec)
    requires i < |SecurityFields| && Written(i, walked, base, target)
    requires Same(SecurityFields[i], next, target)
    requires forall g: Field :: g != SecurityFields[i] ==> Same(g, next, walked)
    ensures Written(i + 1, next, base, target)
  {
    forall f: Field ensures Same(f, next, if Position(f) < i + 1 then target else base) {
      TableIsComplete(f);
      assert f != SecurityFields[i] ==> Same(f, next, walked);
      assert Same(f, walked, if Position(f) < i then target else base);
    }
  }

  lemma UntouchedField(i: nat, walked: SecuritySpec, base: SecuritySpec, target: SecuritySpec)
    requires i < |SecurityFields| && Written(i, walked, base, target)
    ensures Same(SecurityFields[i], walked, base)
  {
    TableIsComplete(SecurityFields[i]);
  }

  lemma WalkDone(walked: SecuritySpec, base: SecuritySpec, target: SecuritySpec)
    requires Written(|SecurityFields|, walked, base, target)
    ensures walked == target
  {
    forall f: Field ensures Same(f, walked, target) {
      TableIsComplete(f);
    }
    assert Same(RunAsNonRoot, walked, target) && Same(RunAsUser, walked, target);
    assert Same(RunAsGroup, walked, target) && Same(FSGroup, walked, target);
    assert Same(FSGroupChangePolicy, walked, target) && Same(ReadOnlyRootFilesystem, walked, target);
    assert Same(AllowPrivilegeEscalation, walked, target) && Same(DropCapabilities, walked, target);
  }

  // ---- The forms without a table ----

  /** The workload's answer where it gives one, the unit's otherwise. */
  function Overlay(unit: SecuritySpec, workload: SecuritySpec): SecuritySpec {
    SecuritySpec(
      unit.runAsNonRoot || workload.runAsNonRoot,
      if workload.runAsUser > 0 then workload.runAsUser else unit.runAsUser,
      if workload.runAsGroup > 0 then workload.runAsGroup else unit.runAsGroup,
      if workload.fsGroup > 0 then workload.fsGroup else unit.fsGroup,
      if workload.fsGroupChangePolicy != "" then workload.fsGroupChangePolicy else unit.fsGroupChangePolicy,
      unit.readOnlyRootFilesystem || workload.readOnlyRootFilesystem,
      unit.allowPrivilegeEscalation || workload.allowPrivilegeEscalation,
      if workload.dropCapabilities != [] then workload.dropCapabilities else unit.dropCapabilities)
  }

  /** The ceiling's answer where it gives one; escalation is the ceiling's alone; drops accumulate. */
  function Tightened(ceiling: SecuritySpec, declared: SecuritySpec): SecuritySpec {
    SecuritySpec(
      ceiling.runAsNonRoot || declared.runAsNonRoot,
      if ceiling.runAsUser > 0 then ceiling.runAsUser else declared.runAsUser,
      if ceiling.runAsGroup > 0 then ceiling.runAsGroup else declared.runAsGroup,
      if ceiling.fsGroup > 0 then ceiling.fsGroup else declared.fsGroup,
      if ceiling.fsGroupChangePolicy != "" then ceiling.fsGroupChangePolicy else declared.fsGroupChangePolicy,
      ceiling.readOnlyRootFilesystem || declared.readOnlyRootFilesystem,
      ceiling.allowPrivilegeEscalation,
      if declared.dropCapabilities == [] then ceiling.dropCapabilities
      else Union(ceiling.dropCapabilities, declared.dropCapabilities))
  }

  /** The declaration with what the ceiling will not have taken out of it. */
  function Kept(ceiling: SecuritySpec, declared: SecuritySpec): SecuritySpec {
    SecuritySpec(
      declared.runAsNonRoot,
      KeptId(ceiling.runAsUser, declared.runAsUser),
      KeptId(ceiling.runAsGroup, declared.runAsGroup),
      KeptId(ceiling.fsGroup, declared.fsGroup),
      if ceiling.fsGroupChangePolicy in ["", declared.fsGroupChangePolicy] then declared.fsGroupChangePolicy else "",
      declared.readOnlyRootFilesystem,
      ceiling.allowPrivilegeEscalation && declared.allowPrivilegeEscalation,
      if ceiling.dropCapabilities != [] && declared.dropCapabilities != []
      then Union(ceiling.dropCapabilities, declared.dropCapabilities) else declared.dropCapabilities)
  }

  function KeptId(ceiling: nat, declared: nat): nat {
    if ceiling > 0 && ceiling != declared then 0 else declared
  }

  /** The field is declared, and is not the answer the tightened posture gives. Drops are a floor. */
  predicate Refused(ceiling: SecuritySpec, declared: SecuritySpec, f: Field) {
    f != DropCapabilities && Sets(declared, f) && !Same(f, Tightened(ceiling, declared), declared)
  }

  function Select(fields: seq<Field>, keep: Field -> bool): (r: seq<Field>)
    ensures forall f :: f in r <==> f in fields && keep(f)
  {
    if fields == [] then []
    else Select(fields[..|fields| - 1], keep) +
         if keep(fields[|fields| - 1]) then [fields[|fields| - 1]] else []
  }

  lemma SelectSnoc(fields: seq<Field>, i: nat, keep: Field -> bool)
    requires i < |fields|
    ensures Select(fields[..i + 1], keep) == Select(fields[..i], keep) + if keep(fields[i]) then [fields[i]] else []
  {
    assert fields[..i + 1][..i] == fields[..i];
  }

  function Ignored(ceiling: SecuritySpec, declared: SecuritySpec): seq<Field> {
    Select(SecurityFields, f => Refused(ceiling, declared, f))
  }

  lemma IgnoredNamesRefused(ceiling: SecuritySpec, declared: SecuritySpec, f: Field)
    ensures f in Ignored(ceiling, declared) <==> Refused(ceiling, declared, f)
  {
    TableIsComplete(f);
  }

  lemma KeptField(ceiling: SecuritySpec, declared: SecuritySpec, f: Field)
    requires f != DropCapabilities
    ensures Same(f, Kept(ceiling, declared), if Refused(ceiling, declared, f) then Empty else declared)
  {
  }

  function Ceiling(s: Option<SecuritySpec>): SecuritySpec {
    if s.None? then Empty else s.value
  }

  // The four answers on possibly absent declarations.

  function ResolvedOf(unit: Option<SecuritySpec>, workload: Option<SecuritySpec>): Option<SecuritySpec> {
    if workload.None? then unit else if unit.None? then workload else Some(Overlay(unit.value, workload.value))
  }

  function TightenedOf(ceiling: Option<SecuritySpec>, declared: Option<SecuritySpec>): Option<SecuritySpec> {
    if declared.None? then ceiling else Some(Tightened(Ceiling(ceiling), declared.value))
  }

  function KeptOf(ceiling: Option<SecuritySpec>, declared: Option<SecuritySpec>): Option<SecuritySpec> {
    if declared.None? then None else Some(Kept(Ceiling(ceiling), declared.value))
  }

  function IgnoredOf(ceiling: Option<SecuritySpec>, declared: Option<SecuritySpec>): seq<Field> {
    if declared.None? then [] else Ignored(Ceiling(ceiling), declared.value)
  }

  // ---- The table's interpreters ----

  method ResolveSecurity(unit: Option<SecuritySpec>, workload: Option<SecuritySpec>)
    returns (resolved: Option<SecuritySpec>)
    ensures resolved == ResolvedOf(unit, workload)
  {
    if workload.None? {
      return unit;
    }
    if unit.None? {
      return workload;
    }
    var merged := unit.value;
    ghost var target := Overlay(unit.value, workload.value);
    for i := 0 to |SecurityFields|
      invariant Written(i, merged, unit.value, target)
    {
      var field := SecurityFields[i];
      ghost var walked := merged;
      if Sets(workload.value, field) {
        merged := Apply(field, merged, workload.value);
      }
      UntouchedField(i, walked, unit.value, target);
      WalkStep(i, walked, merged, unit.value, target);
    }
    WalkDone(merged, unit.value, target);
    resolved := Some(merged);
  }

  method Refuses(ceiling: Option<SecuritySpec>, declared: Option<SecuritySpec>) returns (ignored: seq<Field>)
    ensures ignored == IgnoredOf(ceiling, declared)
  {
    if declared.None? {
      return [];
    }
    var top := if ceiling.None? then Empty else ceiling.value;
    ghost var refused := f => Refused(top, declared.value, f);
    ignored := [];
    for i := 0 to |SecurityFields|
      invariant ignored == Select(SecurityFields[..i], refused)
    {
      var field := SecurityFields[i];
      SelectSnoc(SecurityFields, i, refused);
      RefusedWhen(top, declared.value, field);
      if !Sets(declared.value, field) {
      } else if field == DropCapabilities {
      } else if field == AllowPrivilegeEscalation && !top.allowPrivilegeEscalation {
        ignored := ignored + [field];
      } else if Sets(top, field) && !Same(field, top, declared.value) {
        ignored := ignored + [field];
      }
    }
    assert SecurityFields[..|SecurityFields|] == SecurityFields;
    assert Select(SecurityFields, refused) == Ignored(top, declared.value);
  }

  lemma RefusedWhen(ceiling: SecuritySpec, declared: SecuritySpec, f: Field)
    ensures Refused(ceiling, declared, f) <==>
            && Sets(declared, f) && f != DropCapabilities
            && ((f == AllowPrivilegeEscalation && !ceiling.allowPrivilegeEscalation)
                || (Sets(ceiling, f) && !Same(f, ceiling, declared)))
  {
  }

  method TightenedBy(ceiling: Option<SecuritySpec>, declared: Option<SecuritySpec>)
    returns (posture: Option<SecuritySpec>, ignored: seq<Field>)
    ensures posture == TightenedOf(ceiling, declared) && ignored == IgnoredOf(ceiling, declared)
  {
    if declared.None? {
      return ceiling, [];
    }
    var merged := if ceiling.None? then Empty else ceiling.value;
    ghost var top, target := merged, Tightened(merged, declared.value);
    ignored := Refuses(ceiling, declared);
    for i := 0 to |SecurityFields|
      invariant Written(i, merged, top, target)
    {
      var field := SecurityFields[i];
      ghost var walked := merged;
      UntouchedField(i, walked, top, target);
      TableIsComplete(field);
      if !Sets(declared.value, field) || field in ignored {
      } else if field == DropCapabilities {
        var union := UnionCapabilities(merged.dropCapabilities, declared.value.dropCapabilities);
        merged := merged.(dropCapabilities := union);
      } else {
        merged := Apply(field, merged, declared.value);
      }
      WalkStep(i, walked, merged, top, target);
    }
    WalkDone(merged, top, target);
    posture := Some(merged);
  }

  method TighteningOnly(ceiling: Option<SecuritySpec>, declared: Option<SecuritySpec>)
    returns (kept: Option<SecuritySpec>, ignored: seq<Field>)
    ensures kept == KeptOf(ceiling, declared) && ignored == IgnoredOf(ceiling, declared)
  {
    if declared.None? {
      return None, [];
    }
    ignored := Refuses(ceiling, declared);
    var rest := declared.value;
    ghost var target := Kept(Ceiling(ceiling), declared.value).(dropCapabilities := rest.dropCapabilities);
    for i := 0 to |SecurityFields|
      invariant Written(i, rest, declared.value, target)
    {
      var field := SecurityFields[i];
      ghost var walked := rest;
      UntouchedField(i, walked, declared.value, target);
      IgnoredNamesRefused(Ceiling(ceiling), declared.value, field);
      if field != DropCapabilities {
        KeptField(Ceiling(ceiling), declared.value, field);
      }
      if field in ignored {
        rest := Apply(field, rest, Empty);
      }
      WalkStep(i, walked, rest, declared.value, target);
    }
    WalkDone(rest, declared.value, target);
    if ceiling.Some? && |ceiling.value.dropCapabilities| > 0 && |rest.dropCapabilities| > 0 {
      var union := UnionCapabilities(ceiling.value.dropCapabilities, rest.dropCapabilities);
      rest := rest.(dropCapabilities := union);
    }
    kept := Some(rest);
  }

  method SecurityOverrides(workload: Option<SecuritySpec>) returns (overrides: seq<Field>)
    ensures overrides == OverridesOf(workload)
  {
    if workload.None? {
      return [];
    }
    ghost var asked := f => Sets(workload.value, f);
    overrides := [];
    for i := 0 to |SecurityFields|
      invariant overrides == Select(SecurityFields[..i], asked)
    {
      assert SecurityFields[..i + 1][..i] == SecurityFields[..i];
      if Sets(workload.value, SecurityFields[i]) {
        overrides := overrides + [SecurityFields[i]];
      }
    }
    assert SecurityFields[..|SecurityFields|] == SecurityFields;
    assert Select(SecurityFields, asked) == OverridesOf(workload);
  }

  function OverridesOf(workload: Option<SecuritySpec>): seq<Field> {
    if workload.None? then [] else Select(SecurityFields, f => Sets(workload.value, f))
  }

  // ---- The laws ----

  ghost predicate SameDrops(a: seq<string>, b: seq<string>) {
    forall capability :: Drops(a, capability) <==> Drops(b, capability)
  }

  /**
   * The two answers describe one posture: a workload's filtered declaration, resolved against the
   * unit later, runs under what merging it straight away would have given. The lists that name
   * the drops are spelled alike exactly when the ceiling drops something, or the declaration drops
   * nothing or is already in the accepted shape.
   */
  lemma BothAnswersAgree(ceiling: Option<SecuritySpec>, declared: Option<SecuritySpec>)
    ensures var resolved := ResolvedOf(ceiling, KeptOf(ceiling, declared));
            var merged := TightenedOf(ceiling, declared);
            && resolved.Some? == merged.Some?
            && (resolved.Some? ==>
                  && (forall f: Field :: f != DropCapabilities ==> Same(f, resolved.value, merged.value))
                  && SameDrops(resolved.value.dropCapabilities, merged.value.dropCapabilities)
                  && (resolved == merged <==>
                        || declared.None?
                        || Ceiling(ceiling).dropCapabilities != []
                        || Canonical(declared.value.dropCapabilities)))
  {
    if declared.Some? {
      DropsAgree(Ceiling(ceiling).dropCapabilities, declared.value.dropCapabilities);
    }
  }

  lemma DropsAgree(top: seq<string>, d: seq<string>)
    ensures var kept := if top != [] && d != [] then Union(top, d) else d;
            var resolved := if kept != [] then kept else top;
            var merged := if d == [] then top else Union(top, d);
            SameDrops(resolved, merged) && (resolved == merged <==> top != [] || Canonical(d))
  {
    CanonicalIsItsOwnUnion(d);
    forall capability ensures Drops(d, capability) <==> Drops(Union([], d), capability) {
      UnionDropsEither([], d, capability);
    }
    if top != [] {
      UnionIsNeverEmpty(top, d);
    }
  }

  /** A workload's own answer wins on every field it gives one, the unit's stands on every other. */
  lemma WorkloadWins(unit: Option<SecuritySpec>, workload: Option<SecuritySpec>, f: Field)
    ensures var resolved := ResolvedOf(unit, workload);
            && (resolved.None? <==> unit.None? && workload.None?)
            && (resolved.Some? ==>
                  Same(f, resolved.value,
                       if workload.Some? && Sets(workload.value, f) then workload.value
                       else if unit.Some? then unit.value else workload.value))
  {
  }

  /** Three layers of declarations may be resolved in either grouping. */
  lemma ResolvingAssociates(a: Option<SecuritySpec>, b: Option<SecuritySpec>, c: Option<SecuritySpec>)
    ensures ResolvedOf(ResolvedOf(a, b), c) == ResolvedOf(a, ResolvedOf(b, c))
  {
  }

  /** The source's example: a project's uid, and a workload of another image with one of its own. */
  lemma WorkloadsOwnUid()
    ensures var unit, workload := Empty.(runAsNonRoot := true, runAsUser := 1000), Empty.(runAsUser := 65532);
            ResolvedOf(Some(unit), Some(workload)) == Some(Empty.(runAsNonRoot := true, runAsUser := 65532))
  {
  }

  predicate InTableOrder(fields: seq<Field>) {
    forall i, j :: 0 <= i < j < |fields| ==> Position(fields[i]) < Position(fields[j])
  }

  lemma {:induction false} SelectKeepsOrder(fields: seq<Field>, keep: Field -> bool)
    requires InTableOrder(fields)
    ensures InTableOrder(Select(fields, keep))
  {
    if fields != [] {
      var front, last := fields[..|fields| - 1], fields[|fields| - 1];
      SelectKeepsOrder(front, keep);
      forall f | f in Select(front, keep) ensures Position(f) < Position(last) {
        assert f in front;
      }
    }
  }

  /** What is named, ignored fields and overrides alike, is named once each and in the table's order. */
  lemma NamedInTableOrder(ceiling: Option<SecuritySpec>, declared: Option<SecuritySpec>)
    ensures InTableOrder(IgnoredOf(ceiling, declared)) && InTableOrder(OverridesOf(declared))
  {
    forall i, j | 0 <= i < j < |SecurityFields| ensures Position(SecurityFields[i]) < Position(SecurityFields[j]) {
      TableIsComplete(SecurityFields[i]);
    }
    if declared.Some? {
      SelectKeepsOrder(SecurityFields, f => Refused(Ceiling(ceiling), declared.value, f));
      SelectKeepsOrder(SecurityFields, f => Sets(declared.value, f));
    }
  }

  lemma UnionIsNeverEmpty(a: seq<string>, b: seq<string>)
    requires a != []
    ensures Union(a, b) != []
  {
    DedupElements(a + b);
    assert (a + b)[0] in a + b;
  }

  /** What a reader is told the workload asked for: exactly the declared fields that were not refused. */
  lemma OverridesAreTheUnrefusedFields(ceiling: Option<SecuritySpec>, declared: SecuritySpec, f: Field)
    ensures f in OverridesOf(KeptOf(ceiling, Some(declared)))
       <==> Sets(declared, f) && f !in IgnoredOf(ceiling, Some(declared))
  {
    TableIsComplete(f);
    IgnoredNamesRefused(Ceiling(ceiling), declared, f);
    KeptSets(Ceiling(ceiling), declared, f);
  }

  lemma KeptSets(ceiling: SecuritySpec, declared: SecuritySpec, f: Field)
    ensures Sets(Kept(ceiling, declared), f) <==> Sets(declared, f) && !Refused(ceiling, declared, f)
  {
    if f != DropCapabilities {
      KeptField(ceiling, declared, f);
    } else if ceiling.dropCapabilities != [] {
      UnionIsNeverEmpty(ceiling.dropCapabilities, declared.dropCapabilities);
    }
  }

  /** The order the documentation gives: what was pinned stays, no new escalation, no drop undone. */
  ghost predicate AtLeastAsTight(tighter: SecuritySpec, than: SecuritySpec) {
    && (forall f: Field :: f !in {DropCapabilities, AllowPrivilegeEscalation} && Sets(than, f) ==> Same(f, tighter, than))
    && (tighter.allowPrivilegeEscalation ==> than.allowPrivilegeEscalation)
    && (forall capability :: Drops(than.dropCapabilities, capability) ==> Drops(tighter.dropCapabilities, capability))
  }

  lemma TightenedIsTighter(ceiling: SecuritySpec, declared: SecuritySpec)
    ensures AtLeastAsTight(Tightened(ceiling, declared), ceiling)
    ensures forall c :: Drops(Tightened(ceiling, declared).dropCapabilities, c) <==>
                        Drops(ceiling.dropCapabilities, c) || Drops(declared.dropCapabilities, c)
  {
    forall c ensures Drops(Tightened(ceiling, declared).dropCapabilities, c) <==>
                     Drops(ceiling.dropCapabilities, c) || Drops(declared.dropCapabilities, c) {
      UnionDropsEither(ceiling.dropCapabilities, declared.dropCapabilities, c);
    }
  }

  function TightenAll(ceiling: Option<SecuritySpec>, files: seq<Option<SecuritySpec>>): Option<SecuritySpec> {
    if files == [] then ceiling
    else TightenedOf(TightenAll(ceiling, files[..|files| - 1]), files[|files| - 1])
  }

  /** Over any sequence of declarations the posture only tightens. */
  lemma {:induction false} TightenAllOnlyTightens(ceiling: Option<SecuritySpec>, files: seq<Option<SecuritySpec>>)
    ensures AtLeastAsTight(Ceiling(TightenAll(ceiling, files)), Ceiling(ceiling))
  {
    if files != [] {
      var before, last := TightenAll(ceiling, files[..|files| - 1]), files[|files| - 1];
      TightenAllOnlyTightens(ceiling, files[..|files| - 1]);
      if last.Some? {
        TightenedIsTighter(Ceiling(before), last.value);
      }
    }
  }

  /** For every field but the two special ones, whoever set it first keeps it for good. */
  lemma {:induction false} FirstSetterWins(ceiling: Option<SecuritySpec>, files: seq<Option<SecuritySpec>>,
                                           f: Field, k: nat)
    requires f !in {DropCapabilities, AllowPrivilegeEscalation}
    requires k < |files| && files[k].Some? && Sets(files[k].value, f)
    requires !Sets(Ceiling(ceiling), f)
    requires forall j :: 0 <= j < k && files[j].Some? ==> !Sets(files[j].value, f)
    ensures Same(f, Ceiling(TightenAll(ceiling, files)), files[k].value)
  {
    var front := files[..|files| - 1];
    if k == |files| - 1 {
      NobodySets(ceiling, front, f);
    } else {
      assert front[k] == files[k];
      FirstSetterWins(ceiling, front, f, k);
    }
  }

  lemma {:induction false} NobodySets(ceiling: Option<SecuritySpec>, files: seq<Option<SecuritySpec>>, f: Field)
    requires f !in {DropCapabilities, AllowPrivilegeEscalation}
    requires !Sets(Ceiling(ceiling), f)
    requires forall j :: 0 <= j < |files| && files[j].Some? ==> !Sets(files[j].value, f)
    ensures !Sets(Ceiling(TightenAll(ceiling, files)), f)
  {
    if files != [] {
      NobodySets(ceiling, files[..|files| - 1], f);
    }
  }

  /** The same declaration a second time changes neither the posture nor what is reported as ignored. */
  lemma TighteningIsIdempotent(ceiling: Option<SecuritySpec>, declared: Option<SecuritySpec>)
    ensures var once := TightenedOf(ceiling, declared);
            TightenedOf(once, declared) == once && IgnoredOf(once, declared) == IgnoredOf(ceiling, declared)
  {
    if declared.Some? {
      var top := Ceiling(ceiling);
      UnionAbsorbs(top.dropCapabilities, declared.value.dropCapabilities);
      var once := Tightened(top, declared.value);
      assert Tightened(once, declared.value) == once;
      SelectRespects(SecurityFields, f => Refused(top, declared.value, f), f => Refused(once, declared.value, f));
    }
  }

  lemma {:induction false} SelectRespects(fields: seq<Field>, p: Field -> bool, q: Field -> bool)
    requires forall f :: p(f) == q(f)
    ensures Select(fields, p) == Select(fields, q)
  {
    if fields != [] {
      SelectRespects(fields[..|fields| - 1], p, q);
    }
  }

  /** A change policy means nothing without a group to change to. */
  predicate GroupAccompaniesPolicy(s: SecuritySpec) {
    s.fsGroupChangePolicy != "" ==> s.fsGroup > 0
  }

  /** Both merges keep that rule; the half-way declaration the second one stores need not. */
  lemma MergesKeepGroupWithPolicy(ceiling: SecuritySpec, declared: SecuritySpec)
    requires GroupAccompaniesPolicy(ceiling) && GroupAccompaniesPolicy(declared)
    ensures GroupAccompaniesPolicy(Tightened(ceiling, declared))
    ensures GroupAccompaniesPolicy(Overlay(ceiling, Kept(ceiling, declared)))
    ensures GroupAccompaniesPolicy(Kept(ceiling, declared)) <==>
            !(declared.fsGroupChangePolicy != ""
              && ceiling.fsGroup > 0 && ceiling.fsGroup != declared.fsGroup
              && ceiling.fsGroupChangePolicy in ["", declared.fsGroupChangePolicy])
  {
  }
}
