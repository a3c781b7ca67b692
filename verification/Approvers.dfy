/** Who may approve an exception: the escalation ladder, an unsorted list read for its lowest covering rung. */
module Approvers {
  import opened Common

  datatype Role = Developer | Admin | Operator

  /** One rung: grants up to `limit` nanoseconds need at least this role. */
  datatype Tier = Tier(limit: int, role: Role)

  const HourNs := 3_600_000_000_000

  const DefaultLadder := [Tier(24 * HourNs, Developer), Tier(720 * HourNs, Admin)]

  /** The configured ladder, or the compiled-in one when the block or the list is missing. */
  function EffectiveLadder(configured: Option<seq<Tier>>): seq<Tier> {
    if configured.None? || configured.value == [] then DefaultLadder else configured.value
  }

  predicate Covers(tier: Tier, duration: int) {
    duration <= tier.limit
  }

  /** The rung the documentation means: it covers, none that covers is lower, none before it is as low. */
  predicate IsLowest(ladder: seq<Tier>, duration: int, i: nat) {
    && i < |ladder| && Covers(ladder[i], duration)
    && (forall j :: 0 <= j < |ladder| && Covers(ladder[j], duration) ==> ladder[i].limit <= ladder[j].limit)
    && forall j :: 0 <= j < i && Covers(ladder[j], duration) ==> ladder[i].limit < ladder[j].limit
  }

  /** What the loop answers on a prefix: the limit it kept, -1 for none yet, and the role beside it. */
  function Scan(ladder: seq<Tier>, duration: int, n: nat): (int, Role)
    requires n <= |ladder|
  {
    if n == 0 then (-1, Operator)
    else
      var (best, required) := Scan(ladder, duration, n - 1);
      var tier := ladder[n - 1];
      if Covers(tier, duration) && (best < 0 || tier.limit < best) then (tier.limit, tier.role) else (best, required)
  }

  function RequiredRole(ladder: seq<Tier>, duration: int): Role {
    Scan(ladder, duration, |ladder|).1
  }

  method RequiredApproverRole(configured: Option<seq<Tier>>, duration: int) returns (required: Role)
    ensures required == RequiredRole(EffectiveLadder(configured), duration)
  {
    var ladder := EffectiveLadder(configured);
    required := Operator;
    var best := -1;
    for i := 0 to |ladder|
      invariant (best, required) == Scan(ladder, duration, i)
    {
      var tier := ladder[i];
      if duration > tier.limit {
        continue;
      }
      if best < 0 || tier.limit < best {
        best := tier.limit;
        required := tier.role;
      }
    }
  }

  /** With a ladder configured, its rungs decide; with none, a day is a developer's to grant and thirty an admin's. */
  lemma WhoApproves(configured: Option<seq<Tier>>, duration: int, i: nat)
    requires duration >= 0
    ensures var required := RequiredRole(EffectiveLadder(configured), duration);
            if configured.Some? && configured.value != [] then
              && (IsLowest(configured.value, duration, i) ==> required == configured.value[i].role)
              && (NoneCovers(configured.value, duration) ==> required == Operator)
            else
              required == if duration <= 86_400_000_000_000 then Developer
                          else if duration <= 2_592_000_000_000_000 then Admin else Operator
  {
    if configured.Some? && configured.value != [] {
      RoleIsLowestRungs(configured.value, duration, i);
    } else {
      assert Scan(DefaultLadder, duration, 1).0 == if duration <= 86_400_000_000_000 then 86_400_000_000_000 else -1;
      assert |DefaultLadder| == 2;
    }
  }

  predicate IsLowestUpTo(ladder: seq<Tier>, duration: int, n: nat, i: nat)
    requires n <= |ladder|
  {
    IsLowest(ladder[..n], duration, i)
  }

  predicate NoneCovers(ladder: seq<Tier>, duration: int) {
    forall j :: 0 <= j < |ladder| ==> !Covers(ladder[j], duration)
  }

  /** For a duration that is not negative the sentinel is never mistaken for a limit. */
  lemma {:induction false} ScanFindsLowest(ladder: seq<Tier>, duration: int, n: nat) returns (i: nat)
    requires duration >= 0 && n <= |ladder|
    ensures NoneCovers(ladder[..n], duration) ==> Scan(ladder, duration, n) == (-1, Operator)
    ensures !NoneCovers(ladder[..n], duration) ==>
      IsLowestUpTo(ladder, duration, n, i) && Scan(ladder, duration, n) == (ladder[i].limit, ladder[i].role)
  {
    i := 0;
    if n > 0 {
      i := ScanFindsLowest(ladder, duration, n - 1);
      assert ladder[..n] == ladder[..n - 1] + [ladder[n - 1]];
      if Covers(ladder[n - 1], duration) {
        assert Covers(ladder[..n][n - 1], duration);
        var (best, _) := Scan(ladder, duration, n - 1);
        if best < 0 || ladder[n - 1].limit < best {
          i := n - 1;
        }
      }
    }
  }

  /** The role is the lowest covering rung's, the earliest on a tie; an operator's when none covers. */
  lemma RoleIsLowestRungs(ladder: seq<Tier>, duration: int, i: nat)
    requires duration >= 0
    ensures NoneCovers(ladder, duration) ==> RequiredRole(ladder, duration) == Operator
    ensures IsLowest(ladder, duration, i) ==> RequiredRole(ladder, duration) == ladder[i].role
    ensures !NoneCovers(ladder, duration) ==> exists k: nat :: IsLowest(ladder, duration, k)
  {
    assert ladder[..|ladder|] == ladder;
    var k := ScanFindsLowest(ladder, duration, |ladder|);
    if !NoneCovers(ladder, duration) && IsLowest(ladder, duration, i) {
      LowestIsUnique(ladder, duration, i, k);
    }
  }

  lemma LowestIsUnique(ladder: seq<Tier>, duration: int, i: nat, k: nat)
    requires IsLowest(ladder, duration, i) && IsLowest(ladder, duration, k)
    ensures i == k
  {
  }

  /** Which rung the loop has settled on. */
  function Chosen(ladder: seq<Tier>, duration: int, n: nat): (i: Option<nat>)
    requires n <= |ladder|
    ensures i.Some? ==> i.value < n && Scan(ladder, duration, n) == (ladder[i.value].limit, ladder[i.value].role)
    ensures i.None? ==> Scan(ladder, duration, n) == (-1, Operator)
  {
    if n == 0 then None
    else
      var before := Chosen(ladder, duration, n - 1);
      var best := Scan(ladder, duration, n - 1).0;
      if Covers(ladder[n - 1], duration) && (best < 0 || ladder[n - 1].limit < best) then Some(n - 1) else before
  }

  /** With a negative limit kept, the next covering rung is taken whatever its limit. */
  lemma {:induction false} ScanPassesOver(ladder: seq<Tier>, duration: int, i: nat, n: nat)
    requires IsLowest(ladder, duration, i) && ladder[i].limit < 0 && i < n <= |ladder|
    ensures Chosen(ladder, duration, n) == Some(i) <==> forall j :: i < j < n ==> !Covers(ladder[j], duration)
    ensures Chosen(ladder, duration, n).Some? && i <= Chosen(ladder, duration, n).value
  {
    if n == i + 1 {
      ChosenCovers(ladder, duration, i);
    } else {
      ScanPassesOver(ladder, duration, i, n - 1);
    }
  }

  lemma {:induction false} ChosenCovers(ladder: seq<Tier>, duration: int, n: nat)
    requires n <= |ladder|
    ensures Chosen(ladder, duration, n).Some? ==> Covers(ladder[Chosen(ladder, duration, n).value], duration)
  {
    if n > 0 {
      ChosenCovers(ladder, duration, n - 1);
    }
  }

  /**
   * The sentinel is a negative number, so for a duration that is negative too the loop settles on
   * the lowest covering rung exactly when that one's limit is not negative or no later rung covers.
   */
  lemma LoopFindsLowestExactlyWhen(ladder: seq<Tier>, duration: int, i: nat)
    requires IsLowest(ladder, duration, i)
    ensures Chosen(ladder, duration, |ladder|) == Some(i) <==>
            ladder[i].limit >= 0 || forall j :: i < j < |ladder| ==> !Covers(ladder[j], duration)
  {
    if ladder[i].limit < 0 {
      ScanPassesOver(ladder, duration, i, |ladder|);
    } else {
      ChosenIsLowest(ladder, duration, i, |ladder|);
    }
  }

  lemma {:induction false} ChosenIsLowest(ladder: seq<Tier>, duration: int, i: nat, n: nat)
    requires IsLowest(ladder, duration, i) && ladder[i].limit >= 0 && n <= |ladder|
    ensures n <= i ==> Chosen(ladder, duration, n).None? || ladder[i].limit < ladder[Chosen(ladder, duration, n).value].limit
    ensures n > i ==> Chosen(ladder, duration, n) == Some(i)
  {
    if n > 0 {
      ChosenIsLowest(ladder, duration, i, n - 1);
    }
  }

  lemma NegativeDurationsMislead()
    ensures var ladder := [Tier(-1, Developer), Tier(5, Admin)];
            IsLowest(ladder, -2, 0) && RequiredRole(ladder, -2) == Admin
  {
    var ladder := [Tier(-1, Developer), Tier(5, Admin)];
    assert Scan(ladder, -2, 1) == (-1, Developer);
    assert Scan(ladder, -2, 2) == (5, Admin);
  }

  predicate DistinctLimits(ladder: seq<Tier>) {
    forall i, j :: 0 <= i < j < |ladder| ==> ladder[i].limit != ladder[j].limit
  }

  /** Rungs may be listed in any order when no two have one limit. */
  lemma OrderDoesNotMatter(ladder: seq<Tier>, other: seq<Tier>, duration: int)
    requires duration >= 0 && DistinctLimits(ladder) && DistinctLimits(other)
    requires forall tier :: tier in ladder <==> tier in other
    ensures RequiredRole(ladder, duration) == RequiredRole(other, duration)
  {
    RoleIsLowestRungs(ladder, duration, 0);
    RoleIsLowestRungs(other, duration, 0);
    if NoneCovers(ladder, duration) {
      forall j | 0 <= j < |other| ensures !Covers(other[j], duration) {
        assert other[j] in ladder;
      }
    } else {
      var i: nat :| IsLowest(ladder, duration, i);
      assert ladder[i] in other;
      var k: nat :| k < |other| && other[k] == ladder[i];
      forall j | 0 <= j < |other| && Covers(other[j], duration) ensures other[k].limit <= other[j].limit {
        assert other[j] in ladder;
      }
      assert IsLowest(other, duration, k);
      RoleIsLowestRungs(ladder, duration, i);
      RoleIsLowestRungs(other, duration, k);
    }
  }

  function Rank(role: Role): nat {
    match role
    case Developer => 0
    case Admin => 1
    case Operator => 2
  }

  /** The rung its limit is read from: no earlier one has the same. */
  predicate Leads(ladder: seq<Tier>, i: nat) {
    i < |ladder| && forall k :: 0 <= k < i ==> ladder[k].limit != ladder[i].limit
  }

  /** Roles rise with the limits of the rungs any grant can reach. */
  predicate RolesRise(ladder: seq<Tier>) {
    forall i, j | 0 <= i < |ladder| && 0 <= j < |ladder| && Leads(ladder, i) && Leads(ladder, j) ::
      0 <= ladder[i].limit < ladder[j].limit ==> Rank(ladder[i].role) <= Rank(ladder[j].role)
  }

  /** A longer grant never needs a lesser approver, exactly when the roles rise with the limits. */
  lemma MonotoneExactlyWhenRolesRise(ladder: seq<Tier>)
    ensures RolesRise(ladder) <==>
      forall d, e :: 0 <= d <= e ==> Rank(RequiredRole(ladder, d)) <= Rank(RequiredRole(ladder, e))
  {
    if RolesRise(ladder) {
      forall d, e | 0 <= d <= e ensures Rank(RequiredRole(ladder, d)) <= Rank(RequiredRole(ladder, e)) {
        LongerNeedsNoLess(ladder, d, e);
      }
    }
    if forall d, e :: 0 <= d <= e ==> Rank(RequiredRole(ladder, d)) <= Rank(RequiredRole(ladder, e)) {
      forall i, j | 0 <= i < |ladder| && 0 <= j < |ladder| && Leads(ladder, i) && Leads(ladder, j)
        && 0 <= ladder[i].limit < ladder[j].limit
        ensures Rank(ladder[i].role) <= Rank(ladder[j].role)
      {
        AtItsOwnLimit(ladder, i);
        AtItsOwnLimit(ladder, j);
      }
    }
  }

  lemma AtItsOwnLimit(ladder: seq<Tier>, i: nat)
    requires Leads(ladder, i) && ladder[i].limit >= 0
    ensures RequiredRole(ladder, ladder[i].limit) == ladder[i].role
  {
    assert IsLowest(ladder, ladder[i].limit, i);
    RoleIsLowestRungs(ladder, ladder[i].limit, i);
  }

  lemma LowestLeads(ladder: seq<Tier>, d: int, i: nat)
    requires IsLowest(ladder, d, i)
    ensures Leads(ladder, i)
  {
  }

  lemma LongerNeedsNoLess(ladder: seq<Tier>, d: int, e: int)
    requires 0 <= d <= e && RolesRise(ladder)
    ensures Rank(RequiredRole(ladder, d)) <= Rank(RequiredRole(ladder, e))
  {
    RoleIsLowestRungs(ladder, d, 0);
    RoleIsLowestRungs(ladder, e, 0);
    if !NoneCovers(ladder, e) {
      var k: nat :| IsLowest(ladder, e, k);
      assert Covers(ladder[k], d);
      var i: nat :| IsLowest(ladder, d, i);
      RoleIsLowestRungs(ladder, d, i);
      RoleIsLowestRungs(ladder, e, k);
      LowestLeads(ladder, d, i);
      LowestLeads(ladder, e, k);
      if ladder[i].limit == ladder[k].limit {
        SameLimitSameRung(ladder, d, e, i, k);
      }
    }
  }

  lemma SameLimitSameRung(ladder: seq<Tier>, d: int, e: int, i: nat, k: nat)
    requires d <= e && IsLowest(ladder, d, i) && IsLowest(ladder, e, k) && ladder[i].limit == ladder[k].limit
    ensures i == k
  {
  }
}
