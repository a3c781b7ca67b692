/** The sorted list of settings a repository's file declares, gathered through a map with no fixed order. */
module Declares {
  import opened Common

  datatype Resources = Resources(cpu: string, memory: string)

  datatype Build = Build(strategy: string, dockerfilePath: string, dockerfileTarget: string, skipUnchanged: Option<bool>)

  /** The pointers that matter only for being nil are flags. */
  datatype Runtime = Runtime(
    port: bool, replicas: bool, singleton: bool, notRequestDriven: bool,
    command: seq<string>, args: seq<string>, previewArgs: seq<string>,
    health: bool, security: bool, init: seq<string>, resources: Option<Resources>)

  /** The named lists by the names in them, which is all that is read. */
  datatype RepoConfig = RepoConfig(
    build: Option<Build>, runtime: Option<Runtime>,
    env: seq<string>, files: seq<string>, volumes: seq<string>, offers: seq<string>, processes: seq<string>)

  datatype Setting =
    | Strategy | DockerfilePath | DockerfileTarget | SkipUnchanged
    | Port | Replicas | Singleton | NotRequestDriven | Command | Args | PreviewArgs | Health | Security | Init
    | Cpu | Memory | Processes

  /** The keys of the map literal the runtime section ranges over. */
  const MapKeys := [Port, Replicas, Singleton, NotRequestDriven, Command, Args, PreviewArgs, Health, Security, Init]

  function Path(setting: Setting): string {
    match setting
    case Strategy => "build.strategy"
    case DockerfilePath => "build.dockerfilePath"
    case DockerfileTarget => "build.dockerfileTarget"
    case SkipUnchanged => "build.skipUnchanged"
    case Port => "runtime.port"
    case Replicas => "runtime.replicas"
    case Singleton => "runtime.singleton"
    case NotRequestDriven => "runtime.notRequestDriven"
    case Command => "runtime.command"
    case Args => "runtime.args"
    case PreviewArgs => "runtime.previewArgs"
    case Health => "runtime.health"
    case Security => "runtime.security"
    case Init => "runtime.init"
    case Cpu => "runtime.resources.cpu"
    case Memory => "runtime.resources.memory"
    case Processes => "processes"
  }

  predicate InMap(r: Runtime, setting: Setting) {
    match setting
    case Port => r.port
    case Replicas => r.replicas
    case Singleton => r.singleton
    case NotRequestDriven => r.notRequestDriven
    case Command => |r.command| > 0
    case Args => |r.args| > 0
    case PreviewArgs => |r.previewArgs| > 0
    case Health => r.health
    case Security => r.security
    case Init => |r.init| > 0
    case _ => false
  }

  predicate IsSet(c: RepoConfig, setting: Setting) {
    match setting
    case Strategy => c.build.Some? && c.build.value.strategy != ""
    case DockerfilePath => c.build.Some? && c.build.value.dockerfilePath != ""
    case DockerfileTarget => c.build.Some? && c.build.value.dockerfileTarget != ""
    case SkipUnchanged => c.build.Some? && c.build.value.skipUnchanged.Some?
    case Cpu => c.runtime.Some? && c.runtime.value.resources.Some? && c.runtime.value.resources.value.cpu != ""
    case Memory => c.runtime.Some? && c.runtime.value.resources.Some? && c.runtime.value.resources.value.memory != ""
    case Processes => c.processes != []
    case _ => c.runtime.Some? && InMap(c.runtime.value, setting)
  }

  datatype Section = Env | Files | Volumes | Offers

  function Prefix(section: Section): string {
    match section
    case Env => "env."
    case Files => "files."
    case Volumes => "volumes."
    case Offers => "offers."
  }

  function Listed(c: RepoConfig, section: Section): seq<string> {
    match section
    case Env => c.env
    case Files => c.files
    case Volumes => c.volumes
    case Offers => c.offers
  }

  /** DeclaresEnv, DeclaresFile, DeclaresVolume and DeclaresOffering: one lookup over each named list. */
  method DeclaresNamed(config: Option<RepoConfig>, section: Section, name: string) returns (found: bool)
    ensures found <==> config.Some? && name in Listed(config.value, section)
  {
    if config.None? {
      return false;
    }
    var list := Listed(config.value, section);
    for i := 0 to |list|
      invariant name !in list[..i]
    {
      if list[i] == name {
        return true;
      }
      assert list[..i + 1] == list[..i] + [list[i]];
    }
    assert list[..|list|] == list;
    return false;
  }

  function Prefixed(prefix: string, names: seq<string>): (fields: seq<string>)
    ensures |fields| == |names|
    ensures forall i :: 0 <= i < |names| ==> fields[i] == prefix + names[i]
  {
    seq(|names|, i requires 0 <= i < |names| => prefix + names[i])
  }

  /** The fields of the settings in a list that are set. */
  function SetPaths(c: RepoConfig, settings: seq<Setting>): seq<string> {
    if settings == [] then []
    else
      SetPaths(c, settings[..|settings| - 1]) + On(c, settings[|settings| - 1])
  }

  function On(c: RepoConfig, setting: Setting): seq<string> {
    if IsSet(c, setting) then [Path(setting)] else []
  }

  function BuildFields(c: RepoConfig): seq<string> {
    On(c, Strategy) + On(c, DockerfilePath) + On(c, DockerfileTarget) + On(c, SkipUnchanged)
  }

  function ResourceFields(c: RepoConfig): seq<string> {
    On(c, Cpu) + On(c, Memory)
  }

  function FixedFields(c: RepoConfig, order: seq<Setting>): seq<string> {
    BuildFields(c) + (SetPaths(c, order) + ResourceFields(c))
  }

  function WithNamed(c: RepoConfig, fields: seq<string>): seq<string> {
    fields + Prefixed("env.", c.env) + Prefixed("files.", c.files)
    + Prefixed("volumes.", c.volumes) + Prefixed("offers.", c.offers)
  }

  /** Everything declared, before sorting, for one order of the map's keys. */
  function Gathered(c: RepoConfig, order: seq<Setting>): seq<string> {
    WithNamed(c, FixedFields(c, order)) + On(c, Processes)
  }

  predicate LessEq(a: string, b: string) {
    a == "" || (b != "" && (a[0] < b[0] || (a[0] == b[0] && LessEq(a[1..], b[1..]))))
  }

  predicate Sorted(list: seq<string>) {
    forall i, j :: 0 <= i < j < |list| ==> LessEq(list[i], list[j])
  }

  lemma {:induction false} OrderIsTotal(a: string, b: string)
    ensures LessEq(a, b) || LessEq(b, a)
    ensures LessEq(a, b) && LessEq(b, a) ==> a == b
  {
    if a != "" && b != "" && a[0] == b[0] {
      OrderIsTotal(a[1..], b[1..]);
      assert a == [a[0]] + a[1..] && b == [b[0]] + b[1..];
    }
  }

  lemma {:induction false} OrderIsTransitive(a: string, b: string, c: string)
    requires LessEq(a, b) && LessEq(b, c)
    ensures LessEq(a, c)
  {
    if a != "" && a[0] == b[0] == c[0] {
      OrderIsTransitive(a[1..], b[1..], c[1..]);
    }
  }

  /** A sorted list is settled by what is in it. */
  lemma {:induction false} SortedIsUnique(a: seq<string>, b: seq<string>)
    requires Sorted(a) && Sorted(b) && multiset(a) == multiset(b)
    ensures a == b
  {
    if a == [] {
      assert |multiset(b)| == |b|;
    } else {
      var m, n := |a| - 1, |b| - 1;
      SameContents(a, b);
      LastIsLargest(a, b[n]);
      LastIsLargest(b, a[m]);
      OrderIsTotal(a[m], b[n]);
      SortedIsUnique(a[..m], b[..n]);
      assert a == a[..m] + [a[m]] && b == b[..n] + [b[n]];
    }
  }

  lemma SameContents(a: seq<string>, b: seq<string>)
    requires multiset(a) == multiset(b) && a != []
    ensures b != [] && a[|a| - 1] in b && b[|b| - 1] in a
    ensures a[|a| - 1] == b[|b| - 1] ==> multiset(a[..|a| - 1]) == multiset(b[..|b| - 1])
  {
    FrontContents(a);
    assert a[|a| - 1] in multiset(b);
    FrontContents(b);
  }

  lemma FrontContents(list: seq<string>)
    requires list != []
    ensures multiset(list[..|list| - 1]) == multiset(list) - multiset{list[|list| - 1]}
    ensures forall x :: x in list <==> x in multiset(list)
  {
    var n := |list| - 1;
    assert list == list[..n] + [list[n]];
  }

  lemma LastIsLargest(a: seq<string>, x: string)
    requires Sorted(a) && x in a
    ensures LessEq(x, a[|a| - 1])
  {
    OrderIsTotal(x, x);
  }

  function Insert(list: seq<string>, x: string): seq<string> {
    if list == [] || LessEq(list[|list| - 1], x) then list + [x]
    else Insert(list[..|list| - 1], x) + [list[|list| - 1]]
  }

  /** The specification of the standard library's in-place sort. */
  function Sort(list: seq<string>): seq<string> {
    if list == [] then [] else Insert(Sort(list[..|list| - 1]), list[|list| - 1])
  }

  lemma {:induction false} InsertKeepsSorted(list: seq<string>, x: string)
    requires Sorted(list)
    ensures Sorted(Insert(list, x)) && multiset(Insert(list, x)) == multiset(list) + multiset{x}
  {
    if list != [] {
      var m := |list| - 1;
      var front, last := list[..m], list[m];
      assert list == front + [last];
      if LessEq(last, x) {
        forall i | 0 <= i < |list| ensures LessEq(list[i], x) {
          LastIsLargest(list, list[i]);
          OrderIsTransitive(list[i], last, x);
        }
      } else {
        InsertKeepsSorted(front, x);
        OrderIsTotal(last, x);
        forall y | y in Insert(front, x) ensures LessEq(y, last) {
          assert y in multiset(Insert(front, x));
          if y in multiset(front) {
            LastIsLargest(list, y);
          }
        }
      }
    }
  }

  lemma {:induction false} SortIsSorted(list: seq<string>)
    ensures Sorted(Sort(list)) && multiset(Sort(list)) == multiset(list)
  {
    if list != [] {
      var m := |list| - 1;
      SortIsSorted(list[..m]);
      InsertKeepsSorted(Sort(list[..m]), list[m]);
      assert list == list[..m] + [list[m]];
    }
  }

  /** Ranging over the map in another order gathers the same fields. */
  lemma {:induction false} GatheringIgnoresOrder(c: RepoConfig, x: seq<Setting>, y: seq<Setting>)
    requires multiset(x) == multiset(y)
    ensures multiset(SetPaths(c, x)) == multiset(SetPaths(c, y))
  {
    assert |multiset(x)| == |x| && |multiset(y)| == |y|;
    if y != [] {
      var m := |y| - 1;
      var k := TakenOut(x, y);
      GatheringIgnoresOrder(c, x[..k] + x[k + 1..], y[..m]);
      SetPathsConcat(c, x[..k], x[k + 1..]);
      SetPathsConcat(c, x[..k] + [x[k]], x[k + 1..]);
      assert (x[..k] + [x[k]])[..k] == x[..k];
    }
  }

  lemma TakenOut(x: seq<Setting>, y: seq<Setting>) returns (k: nat)
    requires multiset(x) == multiset(y) && y != []
    ensures k < |x| && x[k] == y[|y| - 1] && x == x[..k] + [x[k]] + x[k + 1..]
    ensures multiset(x[..k] + x[k + 1..]) == multiset(y[..|y| - 1])
  {
    var m := |y| - 1;
    assert y == y[..m] + [y[m]];
    assert y[m] in multiset(x);
    k :| 0 <= k < |x| && x[k] == y[m];
    assert x == x[..k] + [x[k]] + x[k + 1..];
    assert multiset(x[..k] + x[k + 1..]) == multiset(x) - multiset{y[m]} == multiset(y[..m]);
  }

  lemma {:induction false} SetPathsConcat(c: RepoConfig, x: seq<Setting>, y: seq<Setting>)
    ensures SetPaths(c, x + y) == SetPaths(c, x) + SetPaths(c, y)
  {
    if y == [] {
      NothingAfter(x);
    } else {
      SetPathsConcat(c, x, y[..|y| - 1]);
      FrontOfConcat(x, y);
    }
  }

  function DeclaredFields(c: RepoConfig): seq<string> {
    Sort(Gathered(c, MapKeys))
  }

  /** Whatever order the map is ranged over in, the answer is one list, a function of the file alone. */
  method Declares(config: Option<RepoConfig>, order: seq<Setting>) returns (fields: seq<string>)
    requires multiset(order) == multiset(MapKeys)
    ensures fields == if config.None? then [] else DeclaredFields(config.value)
  {
    fields := [];
    if config.None? {
      return;
    }
    OrderNamesMapKeys(order);
    fields := Gather(config.value, order);
    AnyOrderSortsAlike(config.value, order, fields);
    fields := SortFields(fields);
  }

  method Gather(c: RepoConfig, order: seq<Setting>) returns (fields: seq<string>)
    requires forall i :: 0 <= i < |order| ==> IsMapKey(order[i])
    ensures fields == Gathered(c, order)
  {
    fields := GatherBuild(c);
    var runtime := GatherRuntime(c, order);
    fields := fields + runtime;
    fields := GatherNamed(c, fields);
    if |c.processes| > 0 {
      fields := fields + [Path(Processes)];
    }
  }

  lemma AnyOrderSortsAlike(c: RepoConfig, order: seq<Setting>, fields: seq<string>)
    requires multiset(order) == multiset(MapKeys) && fields == Gathered(c, order)
    ensures Sort(fields) == DeclaredFields(c)
  {
    GatheringIgnoresOrder(c, order, MapKeys);
    assert multiset(fields) == multiset(Gathered(c, MapKeys));
    SortIsSorted(fields);
    SortIsSorted(Gathered(c, MapKeys));
    SortedIsUnique(Sort(fields), DeclaredFields(c));
  }

  method GatherRuntime(c: RepoConfig, order: seq<Setting>) returns (fields: seq<string>)
    requires forall i :: 0 <= i < |order| ==> IsMapKey(order[i])
    ensures fields == SetPaths(c, order) + ResourceFields(c)
  {
    fields := [];
    if c.runtime.None? {
      NoRuntimeNoFields(c, order);
      return;
    }
    for i := 0 to |order|
      invariant fields == SetPaths(c, order[..i])
    {
      SetPathsSnoc(c, order, i);
      assert IsMapKey(order[i]);
      if InMap(c.runtime.value, order[i]) {
        fields := fields + [Path(order[i])];
      }
    }
    assert order[..|order|] == order;
    var resources := GatherResources(c);
    fields := fields + resources;
  }

  method GatherResources(c: RepoConfig) returns (fields: seq<string>)
    requires c.runtime.Some?
    ensures fields == ResourceFields(c)
  {
    fields := [];
    if c.runtime.value.resources.Some? {
      var resources := c.runtime.value.resources.value;
      if resources.cpu != "" {
        fields := fields + ["runtime.resources.cpu"];
      }
      if resources.memory != "" {
        fields := fields + ["runtime.resources.memory"];
      }
    }
  }

  method GatherNamed(c: RepoConfig, before: seq<string>) returns (fields: seq<string>)
    ensures fields == WithNamed(c, before)
  {
    fields := AppendNamed(before, "env.", c.env);
    fields := AppendNamed(fields, "files.", c.files);
    fields := AppendNamed(fields, "volumes.", c.volumes);
    fields := AppendNamed(fields, "offers.", c.offers);
  }

  lemma SetPathsSnoc(c: RepoConfig, order: seq<Setting>, i: nat)
    requires i < |order|
    ensures SetPaths(c, order[..i + 1]) == SetPaths(c, order[..i]) + On(c, order[i])
  {
    assert order[..i + 1][..i] == order[..i];
  }

  method GatherBuild(c: RepoConfig) returns (fields: seq<string>)
    ensures fields == BuildFields(c)
  {
    fields := [];
    if c.build.Some? {
      var b := c.build.value;
      if b.strategy != "" {
        fields := fields + ["build.strategy"];
      }
      if b.dockerfilePath != "" {
        fields := fields + ["build.dockerfilePath"];
      }
      if b.dockerfileTarget != "" {
        fields := fields + ["build.dockerfileTarget"];
      }
      if b.skipUnchanged.Some? {
        fields := fields + ["build.skipUnchanged"];
      }
    }
  }

  method AppendNamed(fields: seq<string>, prefix: string, names: seq<string>) returns (longer: seq<string>)
    ensures longer == fields + Prefixed(prefix, names)
  {
    longer := fields;
    for i := 0 to |names|
      invariant longer == fields + Prefixed(prefix, names)[..i]
    {
      longer := longer + [prefix + names[i]];
    }
    assert Prefixed(prefix, names)[..|names|] == Prefixed(prefix, names);
  }

  method SortFields(fields: seq<string>) returns (sorted: seq<string>)
    ensures sorted == Sort(fields)
  {
    sorted := [];
    for i := 0 to |fields|
      invariant sorted == Sort(fields[..i])
    {
      assert fields[..i + 1][..i] == fields[..i];
      sorted := Insert(sorted, fields[i]);
    }
    assert fields[..|fields|] == fields;
  }

  predicate IsMapKey(setting: Setting) {
    setting !in {Strategy, DockerfilePath, DockerfileTarget, SkipUnchanged, Cpu, Memory, Processes}
  }

  lemma OrderNamesMapKeys(order: seq<Setting>)
    requires multiset(order) == multiset(MapKeys)
    ensures forall i :: 0 <= i < |order| ==> IsMapKey(order[i])
  {
    forall i | 0 <= i < |order| ensures IsMapKey(order[i]) {
      assert order[i] in multiset(MapKeys);
      InMapKeys(order[i]);
    }
  }

  lemma InMapKeys(setting: Setting)
    requires setting in MapKeys
    ensures IsMapKey(setting)
  {
  }

  lemma {:induction false} NoRuntimeNoFields(c: RepoConfig, order: seq<Setting>)
    requires c.runtime.None? && forall i :: 0 <= i < |order| ==> IsMapKey(order[i])
    ensures SetPaths(c, order) == [] && ResourceFields(c) == []
  {
    if order != [] {
      NoRuntimeNoFields(c, order[..|order| - 1]);
    }
  }

  predicate StartsFixed(field: string) {
    field != "" && field[0] in "brp"
  }

  predicate StartsNamed(section: Section, field: string) {
    match section
    case Env => field != "" && field[0] == 'e'
    case Files => field != "" && field[0] == 'f'
    case Volumes => field != "" && field[0] == 'v'
    case Offers => field != "" && field[0] == 'o'
  }

  lemma PathsStartFixed(setting: Setting)
    ensures StartsFixed(Path(setting))
  {
  }

  /** No two settings are shown under one name: length, first and ninth character tell them apart. */
  lemma PathsAreDistinct(s: Setting, t: Setting)
    requires Path(s) == Path(t)
    ensures s == t
  {
    PathKey(s);
    PathKey(t);
  }

  function Key(setting: Setting): (int, char, char) {
    match setting
    case Strategy => (14, 'b', 'r')
    case DockerfilePath => (20, 'b', 'c')
    case DockerfileTarget => (22, 'b', 'c')
    case SkipUnchanged => (19, 'b', 'i')
    case Port => (12, 'r', 'p')
    case Replicas => (16, 'r', 'r')
    case Singleton => (17, 'r', 's')
    case NotRequestDriven => (24, 'r', 'n')
    case Command => (15, 'r', 'c')
    case Args => (12, 'r', 'a')
    case PreviewArgs => (19, 'r', 'p')
    case Health => (14, 'r', 'h')
    case Security => (16, 'r', 's')
    case Init => (12, 'r', 'i')
    case Cpu => (21, 'r', 'r')
    case Memory => (24, 'r', 'r')
    case Processes => (9, 'p', 's')
  }

  lemma PathKey(setting: Setting)
    ensures |Path(setting)| >= 9 && Key(setting) == (|Path(setting)|, Path(setting)[0], Path(setting)[8])
  {
  }

  lemma {:induction false} SetPathsAre(c: RepoConfig, settings: seq<Setting>, field: string)
    ensures field in SetPaths(c, settings) <==> exists s :: s in settings && IsSet(c, s) && field == Path(s)
  {
    if settings != [] {
      var m := |settings| - 1;
      assert settings == settings[..m] + [settings[m]];
      SetPathsAre(c, settings[..m], field);
    }
  }

  function Fixed(c: RepoConfig): seq<string> {
    FixedFields(c, MapKeys) + On(c, Processes)
  }

  predicate AnySetting(c: RepoConfig, field: string) {
    exists s: Setting :: IsSet(c, s) && field == Path(s)
  }

  lemma FixedFieldsAre(c: RepoConfig, field: string)
    ensures field in Fixed(c) <==> AnySetting(c, field)
  {
    SetPathsAre(c, MapKeys, field);
    if AnySetting(c, field) {
      var s :| IsSet(c, s) && field == Path(s);
      if IsMapKey(s) {
        MapKeysAreAll(s);
        assert field in SetPaths(c, MapKeys);
      } else {
        assert field in On(c, s);
      }
    }
  }

  lemma MapKeysAreAll(s: Setting)
    requires IsMapKey(s)
    ensures s in MapKeys
  {
    assert MapKeys[0] == Port && MapKeys[1] == Replicas && MapKeys[2] == Singleton && MapKeys[3] == NotRequestDriven;
    assert MapKeys[4] == Command && MapKeys[5] == Args && MapKeys[6] == PreviewArgs && MapKeys[7] == Health;
    assert MapKeys[8] == Security && MapKeys[9] == Init;
  }

  lemma FixedHolds(c: RepoConfig, s: Setting)
    ensures Path(s) in Fixed(c) <==> IsSet(c, s)
  {
    FixedFieldsAre(c, Path(s));
    if AnySetting(c, Path(s)) {
      var t :| IsSet(c, t) && Path(s) == Path(t);
      PathsAreDistinct(s, t);
    }
  }

  lemma {:induction false} PrefixedCount(prefix: string, names: seq<string>, field: string)
    ensures multiset(Prefixed(prefix, names))[field]
            == if prefix <= field then multiset(names)[field[|prefix|..]] else 0
  {
    if names != [] {
      var m := |names| - 1;
      var fields := Prefixed(prefix, names);
      PrefixedCount(prefix, names[..m], field);
      assert names == names[..m] + [names[m]];
      assert fields == Prefixed(prefix, names[..m]) + [prefix + names[m]];
      if prefix <= field {
        assert field == prefix + field[|prefix|..];
        assert (prefix + names[m])[|prefix|..] == names[m];
      }
    }
  }

  function Counted(c: RepoConfig, section: Section, field: string): nat {
    multiset(Prefixed(Prefix(section), Listed(c, section)))[field]
  }

  /** How often a field is on the list, part by part. */
  lemma CountOf(c: RepoConfig, field: string)
    ensures multiset(DeclaredFields(c))[field]
            == multiset(Fixed(c))[field] + Counted(c, Env, field) + Counted(c, Files, field)
               + Counted(c, Volumes, field) + Counted(c, Offers, field)
  {
    SortIsSorted(Gathered(c, MapKeys));
    CountWithNamed(c, FixedFields(c, MapKeys), On(c, Processes), field);
  }

  lemma CountWithNamed(c: RepoConfig, a: seq<string>, p: seq<string>, field: string)
    ensures multiset(WithNamed(c, a) + p)[field]
            == multiset(a + p)[field] + Counted(c, Env, field) + Counted(c, Files, field)
               + Counted(c, Volumes, field) + Counted(c, Offers, field)
  {
    CountOfParts(a, Prefixed("env.", c.env), Prefixed("files.", c.files),
                 Prefixed("volumes.", c.volumes), Prefixed("offers.", c.offers), p, field);
  }

  lemma CountOfParts(a: seq<string>, e: seq<string>, f: seq<string>, v: seq<string>, o: seq<string>, p: seq<string>,
                     x: string)
    ensures multiset(a + e + f + v + o + p)[x]
            == multiset(a + p)[x] + multiset(e)[x] + multiset(f)[x] + multiset(v)[x] + multiset(o)[x]
  {
  }

  lemma CountedOnlyInSection(c: RepoConfig, section: Section, field: string)
    requires !StartsNamed(section, field)
    ensures Counted(c, section, field) == 0
  {
    PrefixedCount(Prefix(section), Listed(c, section), field);
    if Prefix(section) <= field {
      assert field[0] == Prefix(section)[0];
    }
  }

  lemma CountedByName(c: RepoConfig, section: Section, name: string)
    ensures StartsNamed(section, Prefix(section) + name)
    ensures Counted(c, section, Prefix(section) + name) == multiset(Listed(c, section))[name]
  {
    var prefix := Prefix(section);
    PrefixedCount(prefix, Listed(c, section), prefix + name);
    assert (prefix + name)[|prefix|..] == name;
  }

  lemma NoNamedFieldIsFixed(c: RepoConfig, field: string)
    requires !StartsFixed(field)
    ensures multiset(Fixed(c))[field] == 0
  {
    FixedFieldsAre(c, field);
    forall s: Setting ensures field != Path(s) {
      PathsStartFixed(s);
    }
  }

  function Shown(c: RepoConfig, field: string): nat {
    multiset(DeclaredFields(c))[field]
  }

  lemma ShownUnderItsPrefix(c: RepoConfig, section: Section, field: string)
    requires StartsNamed(section, field)
    ensures Shown(c, field) == Counted(c, section, field)
  {
    NoNamedFieldIsFixed(c, field);
    CountOf(c, field);
    if section != Env { CountedOnlyInSection(c, Env, field); }
    if section != Files { CountedOnlyInSection(c, Files, field); }
    if section != Volumes { CountedOnlyInSection(c, Volumes, field); }
    if section != Offers { CountedOnlyInSection(c, Offers, field); }
  }

  lemma ShownAsASetting(c: RepoConfig, field: string)
    requires StartsFixed(field)
    ensures Shown(c, field) == multiset(Fixed(c))[field]
  {
    CountOf(c, field);
    NoSettingIsNamed(c, field);
  }

  lemma NoSettingIsNamed(c: RepoConfig, field: string)
    requires StartsFixed(field)
    ensures Counted(c, Env, field) == 0 && Counted(c, Files, field) == 0
    ensures Counted(c, Volumes, field) == 0 && Counted(c, Offers, field) == 0
  {
    CountedOnlyInSection(c, Env, field);
    CountedOnlyInSection(c, Files, field);
    CountedOnlyInSection(c, Volumes, field);
    CountedOnlyInSection(c, Offers, field);
  }

  lemma InExactlyWhenCounted(list: seq<string>, x: string)
    ensures x in list <==> multiset(list)[x] > 0
  {
  }

  /** A name is listed under its prefix as often as the file declares it, so exactly when the lookup finds it. */
  lemma ListedExactlyWhenDeclared(c: RepoConfig, section: Section, name: string)
    ensures multiset(DeclaredFields(c))[Prefix(section) + name] == multiset(Listed(c, section))[name]
    ensures Prefix(section) + name in DeclaredFields(c) <==> name in Listed(c, section)
  {
    CountedByName(c, section, name);
    ShownUnderItsPrefix(c, section, Prefix(section) + name);
    InExactlyWhenCounted(DeclaredFields(c), Prefix(section) + name);
    InExactlyWhenCounted(Listed(c, section), name);
  }

  /** A setting is listed exactly when the file sets it. */
  lemma ListedExactlyWhenSet(c: RepoConfig, setting: Setting)
    ensures Path(setting) in DeclaredFields(c) <==> IsSet(c, setting)
  {
    PathsStartFixed(setting);
    FixedHolds(c, setting);
    ShownAsASetting(c, Path(setting));
    InExactlyWhenCounted(DeclaredFields(c), Path(setting));
    InExactlyWhenCounted(Fixed(c), Path(setting));
  }

  ghost predicate DeclareAlike(c: RepoConfig, d: RepoConfig) {
    && (forall setting: Setting :: IsSet(c, setting) <==> IsSet(d, setting))
    && forall section: Section :: multiset(Listed(c, section)) == multiset(Listed(d, section))
  }

  /** Two files are shown alike exactly when they set the same settings and declare the same names as often. */
  lemma ShownAlikeExactlyWhenDeclaredAlike(c: RepoConfig, d: RepoConfig)
    ensures DeclaredFields(c) == DeclaredFields(d) <==> DeclareAlike(c, d)
  {
    if DeclaredFields(c) == DeclaredFields(d) {
      forall setting: Setting ensures IsSet(c, setting) <==> IsSet(d, setting) {
        ListedExactlyWhenSet(c, setting);
        ListedExactlyWhenSet(d, setting);
      }
      forall section: Section, name: string
        ensures multiset(Listed(c, section))[name] == multiset(Listed(d, section))[name] {
        ListedExactlyWhenDeclared(c, section, name);
        ListedExactlyWhenDeclared(d, section, name);
      }
      forall section: Section ensures multiset(Listed(c, section)) == multiset(Listed(d, section)) {
        SameCounts(multiset(Listed(c, section)), multiset(Listed(d, section)));
      }
    }
    if DeclareAlike(c, d) {
      DeclaredAlikeIsShownAlike(c, d);
    }
  }

  lemma SameCounts(a: multiset<string>, b: multiset<string>)
    requires forall x :: a[x] == b[x]
    ensures a == b
  {
  }

  lemma DeclaredAlikeIsShownAlike(c: RepoConfig, d: RepoConfig)
    requires DeclareAlike(c, d)
    ensures DeclaredFields(c) == DeclaredFields(d)
  {
    SameFixed(c, d);
    forall field ensures multiset(DeclaredFields(c))[field] == multiset(DeclaredFields(d))[field] {
      CountOf(c, field);
      CountOf(d, field);
      forall section: Section ensures Counted(c, section, field) == Counted(d, section, field) {
        PrefixedCount(Prefix(section), Listed(c, section), field);
        PrefixedCount(Prefix(section), Listed(d, section), field);
      }
    }
    SameCounts(multiset(DeclaredFields(c)), multiset(DeclaredFields(d)));
    SortIsSorted(Gathered(c, MapKeys));
    SortIsSorted(Gathered(d, MapKeys));
    SortedIsUnique(DeclaredFields(c), DeclaredFields(d));
  }

  lemma SameFixed(c: RepoConfig, d: RepoConfig)
    requires forall setting: Setting :: IsSet(c, setting) <==> IsSet(d, setting)
    ensures Fixed(c) == Fixed(d)
  {
    SamePaths(c, d, MapKeys);
  }

  lemma {:induction false} SamePaths(c: RepoConfig, d: RepoConfig, settings: seq<Setting>)
    requires forall setting: Setting :: IsSet(c, setting) <==> IsSet(d, setting)
    ensures SetPaths(c, settings) == SetPaths(d, settings)
  {
    if settings != [] {
      SamePaths(c, d, settings[..|settings| - 1]);
    }
  }

  /** The build section's names, each beside the field it stands for. */
  lemma BuildSettings(c: RepoConfig, build: Build)
    requires c.build == Some(build)
    ensures var fields := DeclaredFields(c);
            && ("build.strategy" in fields <==> build.strategy != "")
            && ("build.dockerfilePath" in fields <==> build.dockerfilePath != "")
            && ("build.dockerfileTarget" in fields <==> build.dockerfileTarget != "")
            && ("build.skipUnchanged" in fields <==> build.skipUnchanged.Some?)
  {
    ListedExactlyWhenSet(c, Strategy);
    ListedExactlyWhenSet(c, DockerfilePath);
    ListedExactlyWhenSet(c, DockerfileTarget);
    ListedExactlyWhenSet(c, SkipUnchanged);
  }

  /** The runtime section's. */
  lemma RuntimeFlags(c: RepoConfig, runtime: Runtime)
    requires c.runtime == Some(runtime)
    ensures var fields := DeclaredFields(c);
            && ("runtime.port" in fields <==> runtime.port)
            && ("runtime.replicas" in fields <==> runtime.replicas)
            && ("runtime.singleton" in fields <==> runtime.singleton)
  {
    ListedExactlyWhenSet(c, Port);
    ListedExactlyWhenSet(c, Replicas);
    ListedExactlyWhenSet(c, Singleton);
  }

  lemma RuntimeRequestDriven(c: RepoConfig, runtime: Runtime)
    requires c.runtime == Some(runtime)
    ensures "runtime.notRequestDriven" in DeclaredFields(c) <==> runtime.notRequestDriven
  {
    ListedExactlyWhenSet(c, NotRequestDriven);
  }

  lemma RuntimeMoreFlags(c: RepoConfig, runtime: Runtime)
    requires c.runtime == Some(runtime)
    ensures var fields := DeclaredFields(c);
            && ("runtime.health" in fields <==> runtime.health)
            && ("runtime.security" in fields <==> runtime.security)
  {
    ListedExactlyWhenSet(c, Health);
    ListedExactlyWhenSet(c, Security);
  }

  lemma RuntimeCommands(c: RepoConfig, runtime: Runtime)
    requires c.runtime == Some(runtime)
    ensures var fields := DeclaredFields(c);
            && ("runtime.command" in fields <==> runtime.command != [])
            && ("runtime.args" in fields <==> runtime.args != [])
  {
    ListedExactlyWhenSet(c, Command);
    ListedExactlyWhenSet(c, Args);
  }

  lemma RuntimeMoreCommands(c: RepoConfig, runtime: Runtime)
    requires c.runtime == Some(runtime)
    ensures var fields := DeclaredFields(c);
            && ("runtime.previewArgs" in fields <==> runtime.previewArgs != [])
            && ("runtime.init" in fields <==> runtime.init != [])
  {
    ListedExactlyWhenSet(c, PreviewArgs);
    ListedExactlyWhenSet(c, Init);
  }

  lemma RuntimeResources(c: RepoConfig, runtime: Runtime)
    requires c.runtime == Some(runtime)
    ensures var fields := DeclaredFields(c);
            && ("runtime.resources.cpu" in fields <==> runtime.resources.Some? && runtime.resources.value.cpu != "")
            && ("runtime.resources.memory" in fields <==> runtime.resources.Some? && runtime.resources.value.memory != "")
  {
    ListedExactlyWhenSet(c, Cpu);
    ListedExactlyWhenSet(c, Memory);
  }

  lemma ProcessesListed(c: RepoConfig)
    ensures var fields := DeclaredFields(c);
            && ("processes" in fields <==> c.processes != [])
  {
    ListedExactlyWhenSet(c, Processes);
  }

  /** Without a section none of its settings is listed. */
  lemma NoSectionNoSettings(c: RepoConfig, setting: Setting)
    ensures c.build.None? && setting in {Strategy, DockerfilePath, DockerfileTarget, SkipUnchanged} ==>
              Path(setting) !in DeclaredFields(c)
    ensures c.runtime.None? && (IsMapKey(setting) || setting in {Cpu, Memory}) ==> Path(setting) !in DeclaredFields(c)
  {
    ListedExactlyWhenSet(c, setting);
  }

  /** The four named lists under their prefixes. */
  lemma NamedLists(c: RepoConfig, name: string)
    ensures "env." + name in DeclaredFields(c) <==> name in c.env
    ensures "files." + name in DeclaredFields(c) <==> name in c.files
    ensures "volumes." + name in DeclaredFields(c) <==> name in c.volumes
    ensures "offers." + name in DeclaredFields(c) <==> name in c.offers
  {
    ListedExactlyWhenDeclared(c, Env, name);
    ListedExactlyWhenDeclared(c, Files, name);
    ListedExactlyWhenDeclared(c, Volumes, name);
    ListedExactlyWhenDeclared(c, Offers, name);
  }
}
