/** A project's promotion ladder: which stage follows an environment, and whether climbing ever ends. */
module Stages {
  import opened Common

  datatype Stage = Stage(name: string, environment: string, autoPromote: bool)

  /** Where an environment is first named, or the ladder's length. */
  function First(stages: seq<Stage>, environment: string): (i: nat)
    ensures i <= |stages|
    ensures i < |stages| ==> stages[i].environment == environment
    ensures forall j :: 0 <= j < i ==> stages[j].environment != environment
  {
    if stages == [] || stages[0].environment == environment then 0 else 1 + First(stages[1..], environment)
  }

  lemma FirstIs(stages: seq<Stage>, environment: string, i: nat)
    requires i < |stages| && stages[i].environment == environment
    requires forall j :: 0 <= j < i ==> stages[j].environment != environment
    ensures First(stages, environment) == i
  {
  }

  method StageIndex(policy: Option<seq<Stage>>, environment: string) returns (index: int)
    ensures -1 <= index
    ensures index >= 0 ==>
      policy.Some? && index < |policy.value| && index == First(policy.value, environment)
    ensures index == -1 ==> policy.None? || First(policy.value, environment) == |policy.value|
  {
    if policy.None? {
      return -1;
    }
    for i := 0 to |policy.value|
      invariant forall j :: 0 <= j < i ==> policy.value[j].environment != environment
    {
      if policy.value[i].environment == environment {
        FirstIs(policy.value, environment, i);
        return i;
      }
    }
    return -1;
  }

  function Next(stages: seq<Stage>, environment: string): Option<Stage> {
    var i := First(stages, environment);
    if i + 1 < |stages| then Some(stages[i + 1]) else None
  }

  method NextStage(policy: Option<seq<Stage>>, environment: string) returns (next: Option<Stage>)
    ensures next == if policy.None? then None else Next(policy.value, environment)
  {
    var index := StageIndex(policy, environment);
    if index < 0 || index + 1 >= |policy.value| {
      return None;
    }
    return Some(policy.value[index + 1]);
  }

  /** The environment reached by moving to the next stage `moves` times, while there is one. */
  function After(stages: seq<Stage>, environment: string, moves: nat): Option<string> {
    if moves == 0 then Some(environment)
    else
      var before := After(stages, environment, moves - 1);
      if before.None? then None
      else
        var next := Next(stages, before.value);
        if next.None? then None else Some(next.value.environment)
  }

  ghost predicate Ends(stages: seq<Stage>, environment: string) {
    exists moves: nat :: After(stages, environment, moves).None?
  }

  /** No stage after position i deploys into an environment the ladder named before. */
  predicate FreshAfter(stages: seq<Stage>, i: nat) {
    forall j, k :: i < j < |stages| && 0 <= k < j ==> stages[k].environment != stages[j].environment
  }

  /** What follows a stage's environment is the stage at the next place. */
  predicate GoesOnInOrder(stages: seq<Stage>, at: nat)
    requires at < |stages|
  {
    Next(stages, stages[at].environment) == if at + 1 < |stages| then Some(stages[at + 1]) else None
  }

  /** Then the walk visits each later stage once, in order, and ends at the last. */
  lemma WalkVisitsEachLaterStage(stages: seq<Stage>, environment: string, moves: nat)
    requires First(stages, environment) < |stages| && FreshAfter(stages, First(stages, environment))
    ensures var at := First(stages, environment) + moves;
            After(stages, environment, moves)
            == if at < |stages| then Some(stages[at].environment) else None
  {
    var i := First(stages, environment);
    forall at | i <= at < |stages| ensures GoesOnInOrder(stages, at) {
      NextIsTheStageAfter(stages, i, at);
    }
    WalkAlong(stages, environment, i, moves);
  }

  lemma {:induction false} WalkAlong(stages: seq<Stage>, environment: string, i: nat, moves: nat)
    requires i < |stages| && stages[i].environment == environment
    requires forall at :: i <= at < |stages| ==> GoesOnInOrder(stages, at)
    ensures After(stages, environment, moves)
         == if i + moves < |stages| then Some(stages[i + moves].environment) else None
  {
    if moves > 0 {
      WalkAlong(stages, environment, i, moves - 1);
      var at := i + moves - 1;
      if at < |stages| {
        assert GoesOnInOrder(stages, at);
        GoesTo(stages, environment, moves, stages[at].environment);
      }
    }
  }

  lemma GoesTo(stages: seq<Stage>, environment: string, moves: nat, here: string)
    requires moves > 0 && After(stages, environment, moves - 1) == Some(here)
    ensures var next := Next(stages, here);
            After(stages, environment, moves) == if next.None? then None else Some(next.value.environment)
  {
  }

  lemma NextIsTheStageAfter(stages: seq<Stage>, i: nat, at: nat)
    requires i <= at < |stages| && FreshAfter(stages, i)
    requires First(stages, stages[i].environment) == i
    ensures Next(stages, stages[at].environment) == if at + 1 < |stages| then Some(stages[at + 1]) else None
  {
    if i < at {
      FirstIs(stages, stages[at].environment, at);
    }
  }

  /** A stage j named before is never passed: arriving there is arriving earlier. */
  lemma {:induction false} WalkStaysBelow(stages: seq<Stage>, environment: string, j: nat, k: nat, moves: nat)
    requires First(stages, environment) < j < |stages|
    requires k < j && stages[k].environment == stages[j].environment
    ensures After(stages, environment, moves).Some?
    ensures First(stages, After(stages, environment, moves).value) < j
  {
    if moves > 0 {
      WalkStaysBelow(stages, environment, j, k, moves - 1);
      var at := First(stages, After(stages, environment, moves - 1).value);
      var reached := stages[at + 1].environment;
      assert First(stages, reached) <= at + 1;
      assert at + 1 == j ==> First(stages, reached) <= k;
    }
  }

  /** Climbing from a stage ends exactly when no later stage deploys into an environment named before it. */
  lemma WalkEndsExactlyWhenFresh(stages: seq<Stage>, environment: string)
    requires First(stages, environment) < |stages|
    ensures Ends(stages, environment) <==> FreshAfter(stages, First(stages, environment))
  {
    var i := First(stages, environment);
    if FreshAfter(stages, i) {
      WalkVisitsEachLaterStage(stages, environment, |stages| - i);
    } else {
      var j, k :| i < j < |stages| && 0 <= k < j && stages[k].environment == stages[j].environment;
      forall moves: nat ensures After(stages, environment, moves).Some? {
        WalkStaysBelow(stages, environment, j, k, moves);
      }
    }
  }

  function Environments(stages: seq<Stage>): (environments: seq<string>)
    ensures |environments| == |stages|
    ensures forall i :: 0 <= i < |stages| ==> environments[i] == stages[i].environment
  {
    seq(|stages|, i requires 0 <= i < |stages| => stages[i].environment)
  }

  /** The whole ladder is climbed from its first stage exactly when its environments are distinct. */
  lemma LadderEndsExactlyWhenDistinct(stages: seq<Stage>)
    requires stages != []
    ensures Ends(stages, stages[0].environment) <==> Distinct(Environments(stages))
  {
    FirstIs(stages, stages[0].environment, 0);
    WalkEndsExactlyWhenFresh(stages, stages[0].environment);
    var environments := Environments(stages);
    if FreshAfter(stages, 0) {
      forall i, j | 0 <= i < j < |stages| ensures environments[i] != environments[j] {
        assert stages[i].environment != stages[j].environment;
      }
    }
    if Distinct(environments) {
      forall j, k | 0 < j < |stages| && 0 <= k < j ensures stages[k].environment != stages[j].environment {
        assert environments[k] != environments[j];
      }
    }
  }

  /** Nothing in the schema forbids it: following staging, production, staging again never ends. */
  lemma RepeatedEnvironmentNeverEnds(moves: nat)
    ensures var ladder := [Stage("first", "staging", true), Stage("second", "production", true),
                           Stage("third", "staging", true)];
            After(ladder, "staging", moves).Some?
  {
    var ladder := [Stage("first", "staging", true), Stage("second", "production", true),
                   Stage("third", "staging", true)];
    FirstIs(ladder, "staging", 0);
    WalkStaysBelow(ladder, "staging", 2, 0, moves);
  }

  // ---- Promotions that follow by themselves ----

  /** How many stages deploy into an environment without a promotion yet. */
  function Left(stages: seq<Stage>, promoted: set<string>): (n: nat)
    ensures n <= |stages|
  {
    if stages == [] then 0 else (if stages[0].environment in promoted then 0 else 1) + Left(stages[1..], promoted)
  }

  lemma {:induction false} PromotingLeavesFewer(stages: seq<Stage>, promoted: set<string>, environment: string)
    ensures Left(stages, promoted + {environment}) <= Left(stages, promoted)
    ensures (exists i :: 0 <= i < |stages| && stages[i].environment == environment) && environment !in promoted ==>
              Left(stages, promoted + {environment}) < Left(stages, promoted)
  {
    if stages != [] {
      PromotingLeavesFewer(stages[1..], promoted, environment);
      if i :| 0 <= i < |stages| && stages[i].environment == environment {
        assert i > 0 ==> stages[1..][i - 1].environment == environment;
      }
    }
  }

  /** The stage a release goes on to by itself: the next one, if it is automatic and has no promotion of it yet. */
  function Automatic(stages: seq<Stage>, environment: string, promoted: set<string>): Option<Stage> {
    var next := Next(stages, environment);
    if next.Some? && next.value.autoPromote && next.value.environment !in promoted then next else None
  }

  /**
   * Where a release goes from an environment by itself, in order. A promotion is named after its
   * release and environment, so one that is there already is not made again: this always ends.
   */
  function Climb(stages: seq<Stage>, environment: string, promoted: set<string>): (visited: seq<string>)
    ensures |visited| <= Left(stages, promoted)
    decreases Left(stages, promoted)
  {
    var next := Automatic(stages, environment, promoted);
    if next.None? then []
    else
      var reached := next.value.environment;
      PromotingLeavesFewer(stages, promoted, reached);
      assert stages[First(stages, environment) + 1].environment == reached;
      [reached] + Climb(stages, reached, promoted + {reached})
  }

  // How far a release climbs that arrived in the first stage's environment.

  /**
   * A build that succeeded lands its release there directly, or by an automatic promotion; a
   * person's promotion has a name of its own. Only a promotion, once applied, goes on.
   */
  datatype Arrival = Flipped | ByBuild | ByPerson

  /** Where a build's release goes: past the bar of an environment that has one, straight onto another. */
  function ArrivalOfBuild(found: bool, requirements: bool): Arrival {
    if found && requirements then ByBuild else Flipped
  }

  /** The environments with an automatic promotion of the release once it has arrived. */
  function Already(stages: seq<Stage>, arrival: Arrival, promoted: set<string>): set<string>
    requires stages != []
  {
    if arrival.ByBuild? then promoted + {stages[0].environment} else promoted
  }

  function Visited(stages: seq<Stage>, arrival: Arrival, promoted: set<string>): seq<string>
    requires stages != []
  {
    [stages[0].environment]
    + if arrival.Flipped? then []
      else Climb(stages, stages[0].environment, Already(stages, arrival, promoted))
  }

  /** A stage a release does not go on to: not automatic, promoted into before, or named on the way. */
  predicate Blocked(stages: seq<Stage>, promoted: set<string>, j: nat)
    requires j < |stages|
  {
    || !stages[j].autoPromote || stages[j].environment in promoted
    || exists k :: 0 < k < j && stages[k].environment == stages[j].environment
  }

  /** It stops short of a blocked stage, and where it is back in the environment it started from. */
  predicate Halts(stages: seq<Stage>, promoted: set<string>, j: nat)
    requires 0 < j < |stages|
  {
    Blocked(stages, promoted, j) || (j > 1 && stages[j - 1].environment == stages[0].environment)
  }

  /** The first place from `i` on where it halts, or the ladder's length. */
  function Stop(stages: seq<Stage>, promoted: set<string>, i: nat): (j: nat)
    requires 0 < i <= |stages|
    ensures i <= j <= |stages| && (j < |stages| ==> Halts(stages, promoted, j))
    ensures forall k :: i <= k < j ==> !Halts(stages, promoted, k)
    decreases |stages| - i
  {
    if i == |stages| || Halts(stages, promoted, i) then i else Stop(stages, promoted, i + 1)
  }

  /** The promotions there are once the climb has come to position `i`. */
  function Made(stages: seq<Stage>, promoted: set<string>, i: nat): set<string>
    requires i < |stages|
  {
    promoted + set k | 0 < k <= i :: stages[k].environment
  }

  ghost predicate NamedFirst(stages: seq<Stage>, i: nat)
    requires i < |stages|
  {
    forall k :: 0 <= k < i ==> stages[k].environment != stages[i].environment
  }

  lemma GoesOnExactlyUnlessBlocked(stages: seq<Stage>, promoted: set<string>, i: nat)
    requires i + 1 < |stages| && NamedFirst(stages, i)
    ensures Automatic(stages, stages[i].environment, Made(stages, promoted, i))
         == if Blocked(stages, promoted, i + 1) then None else Some(stages[i + 1])
  {
    FirstIs(stages, stages[i].environment, i);
    InMade(stages, promoted, i, stages[i + 1].environment);
  }

  lemma InMade(stages: seq<Stage>, promoted: set<string>, i: nat, environment: string)
    requires i < |stages|
    ensures environment in Made(stages, promoted, i) <==>
            environment in promoted || exists k :: 0 < k < i + 1 && stages[k].environment == environment
  {
  }

  lemma MadeGrows(stages: seq<Stage>, promoted: set<string>, i: nat)
    requires i + 1 < |stages|
    ensures Made(stages, promoted, i) + {stages[i + 1].environment} == Made(stages, promoted, i + 1)
  {
  }

  /** Back where it started, the stage after has its promotion. */
  lemma BackAtTheStartItEnds(stages: seq<Stage>, promoted: set<string>, i: nat)
    requires 0 < i < |stages|
    ensures Climb(stages, stages[0].environment, Made(stages, promoted, i)) == []
  {
    FirstIs(stages, stages[0].environment, 0);
    InMade(stages, promoted, i, stages[1].environment);
  }

  lemma {:induction false} ClimbFrom(stages: seq<Stage>, promoted: set<string>, i: nat)
    requires i < |stages| && NamedFirst(stages, i) && (i > 0 ==> !Halts(stages, promoted, i))
    ensures ClimbsRight(stages, promoted, i)
    decreases |stages| - i
  {
    if i + 1 < |stages| && !Blocked(stages, promoted, i + 1)
      && stages[i + 1].environment != stages[0].environment {
      NamedFirstGoesOn(stages, promoted, i);
      ClimbFrom(stages, promoted, i + 1);
    }
    ClimbOneStage(stages, promoted, i);
  }

  /** Where a climb from position `i` goes. */
  predicate ClimbsRight(stages: seq<Stage>, promoted: set<string>, i: nat)
    requires i < |stages|
  {
    Climb(stages, stages[i].environment, Made(stages, promoted, i))
    == Environments(stages)[i + 1..Stop(stages, promoted, i + 1)]
  }

  lemma ClimbOneStage(stages: seq<Stage>, promoted: set<string>, i: nat)
    requires i < |stages| && NamedFirst(stages, i) && (i > 0 ==> !Halts(stages, promoted, i))
    requires (i + 1 < |stages| && !Blocked(stages, promoted, i + 1)
              && stages[i + 1].environment != stages[0].environment) ==>
               ClimbsRight(stages, promoted, i + 1)
    ensures ClimbsRight(stages, promoted, i)
  {
    ClimbStep(stages, promoted, i);
    if i + 1 < |stages| && !Blocked(stages, promoted, i + 1) {
      Slices(Environments(stages), i + 1, Stop(stages, promoted, i + 1));
      if stages[i + 1].environment == stages[0].environment {
        BackAtTheStartItEnds(stages, promoted, i + 1);
      } else {
        NamedFirstGoesOn(stages, promoted, i);
      }
    }
  }

  lemma ClimbStep(stages: seq<Stage>, promoted: set<string>, i: nat)
    requires i < |stages| && NamedFirst(stages, i)
    ensures Climb(stages, stages[i].environment, Made(stages, promoted, i))
         == if i + 1 == |stages| || Blocked(stages, promoted, i + 1) then []
            else [stages[i + 1].environment]
                 + Climb(stages, stages[i + 1].environment, Made(stages, promoted, i + 1))
  {
    if i + 1 < |stages| {
      GoesOnExactlyUnlessBlocked(stages, promoted, i);
      MadeGrows(stages, promoted, i);
    } else {
      FirstIs(stages, stages[i].environment, i);
    }
  }

  lemma NamedFirstGoesOn(stages: seq<Stage>, promoted: set<string>, i: nat)
    requires i + 1 < |stages| && NamedFirst(stages, i) && !Blocked(stages, promoted, i + 1)
    requires stages[i + 1].environment != stages[0].environment
    ensures NamedFirst(stages, i + 1) && (i > 0 ==> stages[i].environment != stages[0].environment)
    ensures !Halts(stages, promoted, i + 1)
  {
  }

  lemma Slices(all: seq<string>, i: nat, j: nat)
    requires i < |all| && i <= j <= |all|
    ensures i < j ==> all[i..j] == [all[i]] + all[i + 1..j]
    ensures i == j ==> all[i..j] == []
  {
  }

  /** Every stage after the first is automatic, has no promotion yet, and is named once after the first. */
  ghost predicate Clear(stages: seq<Stage>, promoted: set<string>)
    requires stages != []
  {
    && (forall j :: 0 < j < |stages| ==> stages[j].autoPromote && stages[j].environment !in promoted)
    && (forall j, k :: 0 < k < j < |stages| ==> stages[k].environment != stages[j].environment)
    && forall j :: 0 < j < |stages| - 1 ==> stages[j].environment != stages[0].environment
  }

  lemma StopsExactlyWhen(stages: seq<Stage>, promoted: set<string>)
    requires stages != []
    ensures Stop(stages, promoted, 1) == |stages| <==> Clear(stages, promoted)
  {
    if Stop(stages, promoted, 1) == |stages| {
      forall j | 0 < j < |stages| ensures stages[j].autoPromote && stages[j].environment !in promoted {
        assert !Halts(stages, promoted, j);
      }
      forall j, k | 0 < k < j < |stages| ensures stages[k].environment != stages[j].environment {
        assert !Halts(stages, promoted, j);
      }
      forall j | 0 < j < |stages| - 1 ensures stages[j].environment != stages[0].environment {
        assert !Halts(stages, promoted, j + 1);
      }
    } else {
      assert Halts(stages, promoted, Stop(stages, promoted, 1));
    }
  }

  lemma FirstClimb(stages: seq<Stage>, promoted: set<string>)
    requires stages != []
    ensures [stages[0].environment] + Climb(stages, stages[0].environment, promoted)
         == Environments(stages)[..Stop(stages, promoted, 1)]
  {
    NothingMadeYet(stages, promoted);
    ClimbFrom(stages, promoted, 0);
    var all := Environments(stages);
    Slices(all, 0, Stop(stages, promoted, 1));
    FromZero(all, Stop(stages, promoted, 1));
  }

  lemma NothingMadeYet(stages: seq<Stage>, promoted: set<string>)
    requires stages != []
    ensures Made(stages, promoted, 0) == promoted
  {
  }

  lemma FromZero(all: seq<string>, n: nat)
    requires n <= |all|
    ensures all[0..n] == all[..n]
  {
  }

  lemma ShorterDiffers(all: seq<string>, n: nat)
    requires n <= |all|
    ensures all[..n] == all <==> n == |all|
  {
  }

  /**
   * However it arrived and whatever automatic promotions of it there were: a release landed directly
   * stays in the first stage; one that was promoted there climbs to the first stage it halts before,
   * and passes every stage exactly when all later ones are clear. With a build's own automatic
   * promotion that takes distinct environments; with a person's the last may be the first again.
   */
  lemma ReleaseClimbsExactlyTo(stages: seq<Stage>, arrival: Arrival, promoted: set<string>)
    requires stages != []
    ensures var already := Already(stages, arrival, promoted);
            && Visited(stages, arrival, promoted)
                 == Environments(stages)[..if arrival.Flipped? then 1 else Stop(stages, already, 1)]
            && (Visited(stages, arrival, promoted) == Environments(stages) <==>
                  |stages| == 1 || (!arrival.Flipped? && Clear(stages, already)))
    ensures arrival.ByBuild? ==>
              (Clear(stages, Already(stages, arrival, promoted)) <==>
                 && Distinct(Environments(stages))
                 && forall j :: 0 < j < |stages| ==> stages[j].autoPromote && stages[j].environment !in promoted)
  {
    var already := Already(stages, arrival, promoted);
    FirstClimb(stages, already);
    StopsExactlyWhen(stages, already);
    ShorterDiffers(Environments(stages), if arrival.Flipped? then 1 else Stop(stages, already, 1));
    if arrival.ByBuild? {
      ClearAfterABuild(stages, promoted);
    }
  }

  lemma ClearAfterABuild(stages: seq<Stage>, promoted: set<string>)
    requires stages != []
    ensures Clear(stages, promoted + {stages[0].environment}) <==>
            && Distinct(Environments(stages))
            && forall j :: 0 < j < |stages| ==> stages[j].autoPromote && stages[j].environment !in promoted
  {
    var all := Environments(stages);
    if Clear(stages, promoted + {stages[0].environment}) {
      forall i, j | 0 <= i < j < |stages| ensures all[i] != all[j] {
        assert stages[j].environment !in promoted + {stages[0].environment};
      }
    }
    if Distinct(all) {
      forall j, k | 0 <= k < j < |stages| ensures stages[k].environment != stages[j].environment {
        assert all[k] != all[j];
      }
    }
  }

  /** A person's promotion into staging, production, staging again passes all three stages. */
  lemma PersonsReleasePassesARepeat()
    ensures var ladder := [Stage("first", "staging", true), Stage("second", "production", true),
                           Stage("third", "staging", true)];
            && Visited(ladder, ByPerson, {}) == Environments(ladder)
            && Visited(ladder, ByBuild, {}) == ["staging", "production"]
  {
    var ladder := [Stage("first", "staging", true), Stage("second", "production", true),
                   Stage("third", "staging", true)];
    ReleaseClimbsExactlyTo(ladder, ByPerson, {});
    ReleaseClimbsExactlyTo(ladder, ByBuild, {});
    assert !Halts(ladder, {"staging"}, 1) && Halts(ladder, {"staging"}, 2);
    assert Stop(ladder, {"staging"}, 1) == 2;
    assert {} + {"staging"} == {"staging"};
  }

  /** A build past the bar of an environment that has one: its automatic promotion is there, and climbs. */
  lemma BarredBuildClimbs(stages: seq<Stage>, promoted: set<string>)
    requires stages != []
    ensures var already := promoted + {stages[0].environment};
            Visited(stages, ArrivalOfBuild(true, true), promoted) == Environments(stages)[..Stop(stages, already, 1)]
  {
    ReleaseClimbsExactlyTo(stages, ByBuild, promoted);
  }

  /** A release landed directly on the first stage goes nowhere by itself, however clear the ladder. */
  lemma FlippedReleaseStays(stages: seq<Stage>, promoted: set<string>, requirements: bool)
    requires stages != []
    ensures Visited(stages, ArrivalOfBuild(false, requirements), promoted) == [stages[0].environment]
    ensures Visited(stages, ArrivalOfBuild(true, false), promoted) == [stages[0].environment]
  {
  }
}
