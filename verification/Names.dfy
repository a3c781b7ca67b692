/** Generated names: the Build of a commit, and the variables a workload's siblings find it under. */
module Names {
  import opened Common

  method BuildNameFor(project: string, sha: string) returns (name: string)
    ensures name == BuildName(project, sha)
  {
    var short := sha;
    if |sha| > 12 {
      short := sha[..12];
    }
    name := project + "-bld-" + short;
  }

  function Short(sha: string): string {
    if |sha| > 12 then sha[..12] else sha
  }

  function BuildName(project: string, sha: string): string {
    project + "-bld-" + Short(sha)
  }

  predicate NoDash(s: string) {
    '-' !in s
  }

  predicate SameAt(a: string, b: string, k: nat) {
    (k < |a| <==> k < |b|) && (k < |a| && k < |b| ==> a[k] == b[k])
  }

  lemma ShortIsTwelve(a: string, b: string)
    ensures Short(a) == Short(b) <==> forall k :: 0 <= k < 12 ==> SameAt(a, b, k)
  {
    var s, t := Short(a), Short(b);
    if s == t {
      forall k | 0 <= k < 12 ensures SameAt(a, b, k) {
        assert k < |s| ==> s[k] == a[k] && t[k] == b[k];
      }
    }
    if forall k :: 0 <= k < 12 ==> SameAt(a, b, k) {
      assert |s| < 12 ==> SameAt(a, b, |s|);
      assert |t| < 12 ==> SameAt(a, b, |t|);
      forall k | 0 <= k < |s| && k < |t| ensures s[k] == t[k] {
        assert SameAt(a, b, k);
      }
    }
  }

  /** A commit's name has no dash, so the last `-bld-` splits a Build's name; a project may hold others. */
  lemma BuildsCollideExactlyOnOneCommit(p: string, a: string, q: string, b: string)
    requires NoDash(a) && NoDash(b)
    ensures BuildName(p, a) == BuildName(q, b) <==> p == q && forall k :: 0 <= k < 12 ==> SameAt(a, b, k)
  {
    ShortIsTwelve(a, b);
    if BuildName(p, a) == BuildName(q, b) {
      assert Short(a) <= a && Short(b) <= b;
      var m, n := |p| + 5, |q| + 5;
      var name := BuildName(p, a);
      assert name[m - 1] == "-bld-"[4] && name[n - 1] == "-bld-"[4];
      assert name[m..] == Short(a) && name[n..] == Short(b);
      assert m == n;
      assert name[..|p|] == p && name[..|q|] == q;
    }
  }

  /** With a dash allowed in what stands for a commit, two projects could share a Build's name. */
  lemma DashesCollide()
    ensures BuildName("shop", "a-bld-b") == BuildName("shop-bld-a", "b")
  {
    assert "shop" + "-bld-" + "a-bld-b" == "shop-bld-a" + "-bld-" + "b";
  }

  const ServicePrefix := "KITCHEN_SERVICE_"

  function Converted(c: char): char {
    if 'a' <= c <= 'z' then c - 32 as char else if c == '-' then '_' else c
  }

  function Conversion(name: string): (upper: string)
    ensures |upper| == |name|
    ensures forall i :: 0 <= i < |name| ==> upper[i] == Converted(name[i])
  {
    seq(|name|, i requires 0 <= i < |name| => Converted(name[i]))
  }

  method ServiceEnvPrefix(processName: string) returns (prefix: string)
    ensures prefix == ServicePrefix + Conversion(processName)
  {
    var name := "";
    for i := 0 to |processName|
      invariant name == Conversion(processName)[..i]
    {
      var r := processName[i];
      if 'a' <= r <= 'z' {
        name := name + [r - 32 as char];
      } else if r == '-' {
        name := name + ['_'];
      } else {
        name := name + [r];
      }
    }
    prefix := ServicePrefix + name;
    assert Conversion(processName)[..|processName|] == Conversion(processName);
  }

  /** What the alphabet of a DNS label gives up: no upper-case letter and no underscore. */
  predicate Plain(name: string) {
    forall i :: 0 <= i < |name| ==> name[i] != '_' && !('A' <= name[i] <= 'Z')
  }

  function Restored(c: char): char {
    if 'A' <= c <= 'Z' then c + 32 as char else if c == '_' then '-' else c
  }

  function Restoration(upper: string): (name: string)
    ensures |name| == |upper|
    ensures forall i :: 0 <= i < |upper| ==> name[i] == Restored(upper[i])
  {
    seq(|upper|, i requires 0 <= i < |upper| => Restored(upper[i]))
  }

  /** The name can be read back from the variable exactly when it is free of both. */
  lemma ConversionReadsBack(name: string)
    ensures Restoration(Conversion(name)) == name <==> Plain(name)
  {
    if Restoration(Conversion(name)) == name {
      forall i | 0 <= i < |name| ensures name[i] != '_' && !('A' <= name[i] <= 'Z') {
        assert Restored(Converted(name[i])) == name[i];
      }
    }
  }

  lemma ConversionIsInjective(x: string, y: string)
    requires Plain(x) && Plain(y)
    ensures Conversion(x) == Conversion(y) <==> x == y
  {
    ConversionReadsBack(x);
    ConversionReadsBack(y);
  }

  lemma GatewaysVariable()
    ensures ServicePrefix + Conversion("api-gateway") == "KITCHEN_SERVICE_API_GATEWAY"
  {
    assert Conversion("api-gateway") == "API_GATEWAY";
  }

  predicate IsVariableChar(c: char) {
    'A' <= c <= 'Z' || '0' <= c <= '9' || c == '_'
  }

  /** What comes out is a variable's name exactly when what goes in has only letters, digits, dashes and underscores. */
  lemma ConversionIsAVariableName(name: string)
    ensures (forall i :: 0 <= i < |name| ==> IsVariableChar(Conversion(name)[i])) <==>
            forall i :: 0 <= i < |name| ==> 'a' <= name[i] <= 'z' || IsVariableChar(name[i]) || name[i] == '-'
  {
    if forall i :: 0 <= i < |name| ==> IsVariableChar(Conversion(name)[i]) {
      forall i | 0 <= i < |name| ensures 'a' <= name[i] <= 'z' || IsVariableChar(name[i]) || name[i] == '-' {
        assert IsVariableChar(Conversion(name)[i]);
      }
    }
  }

  /** The variables something is found under: its host and its port, and its address where it has a URL. */
  function VariablesOf(name: string, url: bool): set<string> {
    var prefix := ServicePrefix + Conversion(name);
    {prefix + "_HOST", prefix + "_PORT"} + if url then {prefix} else {}
  }

  /** A service's three. */
  function Variables(name: string): set<string> {
    VariablesOf(name, true)
  }

  predicate Suffixed(x: string, y: string) {
    y == x + "-host" || y == x + "-port"
  }

  lemma ConversionOfConcat(x: string, y: string)
    ensures Conversion(x + y) == Conversion(x) + Conversion(y)
  {
  }

  lemma SuffixesConvert()
    ensures Conversion("-host") == "_HOST" && Conversion("-port") == "_PORT"
    ensures Plain("-host") && Plain("-port")
  {
    var host, port := "-host", "-port";
    assert Conversion(host) == "_HOST";
    assert Conversion(port) == "_PORT";
  }

  lemma SuffixedConverts(x: string, y: string, suffix: string, upper: string)
    requires Plain(x) && Plain(y) && Plain(suffix) && Conversion(suffix) == upper
    ensures ServicePrefix + Conversion(y) == ServicePrefix + Conversion(x) + upper <==> y == x + suffix
  {
    ConversionOfConcat(x, suffix);
    ConversionIsInjective(y, x + suffix);
    if ServicePrefix + Conversion(y) == ServicePrefix + Conversion(x) + upper {
      Cancel(ServicePrefix, Conversion(y), Conversion(x) + upper);
    }
  }

  lemma Cancel(front: string, a: string, b: string)
    requires front + a == front + b
    ensures a == b
  {
    assert (front + a)[|front|..] == a && (front + b)[|front|..] == b;
  }

  /** Two names meet: they are one, or one with a URL is the other with `-host` or `-port` behind it. */
  predicate Meet(x: string, xUrl: bool, y: string, yUrl: bool) {
    x == y || (yUrl && Suffixed(x, y)) || (xUrl && Suffixed(y, x))
  }

  lemma VariablesOfMeetExactlyWhen(x: string, xUrl: bool, y: string, yUrl: bool)
    requires Plain(x) && Plain(y)
    ensures VariablesOf(x, xUrl) !! VariablesOf(y, yUrl) <==> !Meet(x, xUrl, y, yUrl)
  {
    SuffixesConvert();
    ConversionIsInjective(x, y);
    SuffixedConverts(x, y, "-host", "_HOST");
    SuffixedConverts(x, y, "-port", "_PORT");
    SuffixedConverts(y, x, "-host", "_HOST");
    SuffixedConverts(y, x, "-port", "_PORT");
    SameVariables(x, y);
    var p, q := ServicePrefix + Conversion(x), ServicePrefix + Conversion(y);
    assert p + "_HOST" in VariablesOf(x, xUrl) && p + "_PORT" in VariablesOf(x, xUrl);
    assert q + "_HOST" in VariablesOf(y, yUrl) && q + "_PORT" in VariablesOf(y, yUrl);
  }

  /**
   * The prefixes of two services never meet, but their variables do, exactly when one is named after
   * the other with `-host` or `-port` behind it.
   */
  lemma VariablesMeetExactlyWhen(x: string, y: string)
    requires Plain(x) && Plain(y)
    ensures Variables(x) !! Variables(y) <==> x != y && !Suffixed(x, y) && !Suffixed(y, x)
  {
    VariablesOfMeetExactlyWhen(x, true, y, true);
  }

  lemma SameVariables(x: string, y: string)
    ensures var p, q := ServicePrefix + Conversion(x), ServicePrefix + Conversion(y);
            && (p == q <==> Conversion(x) == Conversion(y))
            && (p + "_HOST" == q + "_HOST" <==> p == q)
            && (p + "_PORT" == q + "_PORT" <==> p == q)
            && p + "_HOST" != q + "_PORT"
            && q + "_HOST" != p + "_PORT"
  {
    var p, q := ServicePrefix + Conversion(x), ServicePrefix + Conversion(y);
    if p == q {
      Cancel(ServicePrefix, Conversion(x), Conversion(y));
    }
    CancelBack(p, q, "_HOST");
    CancelBack(p, q, "_PORT");
    LastOf(p, q);
    LastOf(q, p);
  }

  lemma CancelBack(p: string, q: string, back: string)
    ensures p + back == q + back <==> p == q
  {
    if p + back == q + back {
      assert |p| == |q|;
      assert (p + back)[..|p|] == p && (q + back)[..|q|] == q;
    }
  }

  lemma LastOf(p: string, q: string)
    ensures p + "_HOST" != q + "_PORT"
  {
    if |p| == |q| {
      assert (p + "_HOST")[|p| + 1] == 'H' && (q + "_PORT")[|p| + 1] == 'P';
    }
  }

  // ---- Bindings beside workloads ----

  const WebProcessName := "web"

  /** A workload, and whether its siblings are told where it is: only a service that runs here is. */
  datatype Workload = Workload(name: string, service: bool)

  /** A binding that is bound here, and whether it hands over a URL beside its host and port. */
  datatype Binding = Binding(name: string, url: bool)

  function WorkloadVariables(workload: Workload): set<string> {
    if workload.service then Variables(workload.name) else {}
  }

  function BindingVariables(binding: Binding): set<string> {
    VariablesOf(binding.name, binding.url)
  }

  /** The check on a binding: its name is not web's and not the name of any workload of the project. */
  predicate Accepts(workloads: seq<Workload>, binding: Binding) {
    binding.name != WebProcessName && forall i :: 0 <= i < |workloads| ==> workloads[i].name != binding.name
  }

  ghost predicate CollidesWithAWorkload(workloads: seq<Workload>, binding: Binding) {
    exists i :: 0 <= i < |workloads| && !(WorkloadVariables(workloads[i]) !! BindingVariables(binding))
  }

  ghost predicate CollidesWithABinding(bindings: seq<Binding>, binding: Binding) {
    exists i :: 0 <= i < |bindings| && !(BindingVariables(bindings[i]) !! BindingVariables(binding))
  }

  /**
   * A binding that the check accepts still collides with a workload exactly when a service is named
   * after it with `-host` or `-port` behind it, or it has a URL and is so named after a service.
   * With another binding, which the check does not look at, it collides exactly when their names
   * meet, the one with the suffix having a URL.
   */
  lemma NameCheckIsNotEnough(workloads: seq<Workload>, bindings: seq<Binding>, binding: Binding)
    requires Plain(binding.name)
    requires forall i :: 0 <= i < |workloads| ==> Plain(workloads[i].name)
    requires forall i :: 0 <= i < |bindings| ==> Plain(bindings[i].name)
    requires Accepts(workloads, binding)
    ensures CollidesWithAWorkload(workloads, binding) <==>
            exists i :: 0 <= i < |workloads| && workloads[i].service
              && (Suffixed(binding.name, workloads[i].name) || (binding.url && Suffixed(workloads[i].name, binding.name)))
    ensures CollidesWithABinding(bindings, binding) <==>
            exists i :: 0 <= i < |bindings| && Meet(bindings[i].name, bindings[i].url, binding.name, binding.url)
  {
    forall i | 0 <= i < |workloads|
      ensures WorkloadVariables(workloads[i]) !! BindingVariables(binding) <==>
              !(workloads[i].service && Meet(workloads[i].name, true, binding.name, binding.url))
    {
      VariablesOfMeetExactlyWhen(workloads[i].name, true, binding.name, binding.url);
    }
    forall i | 0 <= i < |bindings|
      ensures BindingVariables(bindings[i]) !! BindingVariables(binding) <==>
              !Meet(bindings[i].name, bindings[i].url, binding.name, binding.url)
    {
      VariablesOfMeetExactlyWhen(bindings[i].name, bindings[i].url, binding.name, binding.url);
    }
  }

  lemma ApiHostIsSuffixed()
    ensures Suffixed("api", "api-host") && Plain("api") && Plain("api-host")
  {
    var api := "api";
    assert api + "-host" == "api-host";
  }

  /** Beside a service `api` the check accepts a binding `api-host`, and with a URL it collides. */
  lemma AcceptedAndColliding()
    ensures var workloads := [Workload("api", true)];
            && Accepts(workloads, Binding("api-host", true))
            && CollidesWithAWorkload(workloads, Binding("api-host", true))
            && CollidesWithABinding([Binding("api", false)], Binding("api-host", true))
  {
    var workloads, binding := [Workload("api", true)], Binding("api-host", true);
    ApiHostIsSuffixed();
    NameCheckIsNotEnough(workloads, [Binding("api", false)], binding);
    assert workloads[0].service && Suffixed(workloads[0].name, binding.name);
    assert Meet([Binding("api", false)][0].name, [Binding("api", false)][0].url, binding.name, binding.url);
  }

  /** Without a URL it does not, nor with a workload that is no service. */
  lemma AcceptedAndApart()
    ensures !CollidesWithAWorkload([Workload("api", true)], Binding("api-host", false))
    ensures !CollidesWithAWorkload([Workload("api", false)], Binding("api-host", true))
  {
    ApiHostIsSuffixed();
    NameCheckIsNotEnough([Workload("api", true)], [], Binding("api-host", false));
    NameCheckIsNotEnough([Workload("api", false)], [], Binding("api-host", true));
  }

  lemma BuildOfACommit()
    ensures BuildName("shop", "0123456789abcdef") == "shop-bld-0123456789ab"
  {
    assert "0123456789abcdef"[..12] == "0123456789ab";
    assert "shop" + "-bld-" + "0123456789ab" == "shop-bld-0123456789ab";
  }
}
