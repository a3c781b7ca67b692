/** The capability lists of a security posture, and the absorbing union that merges two of them. */
module Capabilities {
  import opened Common
  import opened FirstMentions

  const CapabilityDropAll := "ALL"

  /** Whether an entry is `ALL` in any letter case. Neither `A` nor `L` has a fold outside ASCII. */
  predicate SpellsAll(capability: string) {
    |capability| == 3 && capability[0] in "Aa" && capability[1] in "Ll" && capability[2] in "Ll"
  }

  /** The eight ways to write it. */
  lemma SpellingsOfAll(capability: string)
    ensures SpellsAll(capability) <==>
            capability in ["ALL", "ALl", "AlL", "All", "aLL", "aLl", "alL", "all"]
  {
    if SpellsAll(capability) {
      assert capability == [capability[0], capability[1], capability[2]];
    }
  }

  predicate NamesAll(list: seq<string>) {
    exists i :: 0 <= i < |list| && SpellsAll(list[i])
  }

  /** Whether a container under this list is without the capability: `ALL` reads as every one. */
  predicate Drops(list: seq<string>, capability: string) {
    NamesAll(list) || capability in list
  }

  /** The two shapes the API accepts: exactly `[ALL]`, or distinct names none of which spells it. */
  predicate Canonical(list: seq<string>) {
    list == [CapabilityDropAll] || (Distinct(list) && !NamesAll(list))
  }

  function Union(project: seq<string>, declared: seq<string>): seq<string> {
    if NamesAll(project + declared) then [CapabilityDropAll] else Dedup(project + declared)
  }

  method UnionCapabilities(project: seq<string>, declared: seq<string>) returns (union: seq<string>)
    ensures union == Union(project, declared)
  {
    union := [];
    var seen: set<string> := {};
    var all := project + declared;
    for i := 0 to |all|
      invariant union == Dedup(all[..i])
      invariant forall c :: c in seen <==> c in union
      invariant !NamesAll(all[..i])
    {
      if SpellsAll(all[i]) {
        return [CapabilityDropAll];
      }
      assert all[..i + 1][..i] == all[..i];
      if all[i] in seen {
        continue;
      }
      seen := seen + {all[i]};
      union := union + [all[i]];
    }
    assert all[..|all|] == all;
  }

  /** The union is in the accepted shape whatever shape its inputs were in. */
  lemma UnionIsCanonical(a: seq<string>, b: seq<string>)
    ensures Canonical(Union(a, b))
  {
    DedupElements(a + b);
    if !NamesAll(a + b) {
      forall i | 0 <= i < |Dedup(a + b)| ensures !SpellsAll(Dedup(a + b)[i]) {
        assert Dedup(a + b)[i] in a + b;
      }
    }
  }

  /** A container under the union is without exactly what either list takes away. */
  lemma UnionDropsEither(a: seq<string>, b: seq<string>, capability: string)
    ensures Drops(Union(a, b), capability) <==> Drops(a, capability) || Drops(b, capability)
  {
    NamesAllOfConcat(a, b);
    if NamesAll(a + b) {
      assert SpellsAll(Union(a, b)[0]);
    } else {
      DedupElements(a + b);
      UnionIsCanonical(a, b);
      assert Union(a, b) == [CapabilityDropAll] ==> SpellsAll(Union(a, b)[0]);
      assert forall i :: 0 <= i < |Union(a, b)| ==> Union(a, b)[i] in a + b;
    }
  }

  lemma NamesAllOfConcat(a: seq<string>, b: seq<string>)
    ensures NamesAll(a + b) <==> NamesAll(a) || NamesAll(b)
  {
    if i :| 0 <= i < |a| && SpellsAll(a[i]) {
      assert SpellsAll((a + b)[i]);
    }
    if i :| 0 <= i < |b| && SpellsAll(b[i]) {
      assert SpellsAll((a + b)[|a| + i]);
    }
  }

  /**
   * Everything at once: the union holds what either list names, each once, in the order in which
   * they were first named, and it is the only list that does.
   */
  lemma UnionIsTheOnlyOrderedList(a: seq<string>, b: seq<string>, other: seq<string>)
    requires !NamesAll(a + b)
    ensures other == Union(a, b) <==> (forall c :: c in other <==> c in a || c in b) && Ranked(a + b, other)
  {
    var union := Dedup(a + b);
    DedupElements(a + b);
    forall i, j | 0 <= i < j < |union|
      ensures union[i] in a + b && union[j] in a + b
      ensures FirstMention(a + b, union[i]) < FirstMention(a + b, union[j])
    {
      DedupKeepsOrder(a + b, i, j);
    }
    assert Ranked(a + b, union);
    if (forall c :: c in other <==> c in a || c in b) && Ranked(a + b, other) {
      RankedListsAgree(a + b, other, union);
    }
  }

  lemma UnionByCases(a: seq<string>, b: seq<string>)
    ensures NamesAll(Union(a, b)) <==> NamesAll(a) || NamesAll(b)
    ensures Union(a, b) == if NamesAll(a) || NamesAll(b) then [CapabilityDropAll] else Dedup(a + b)
  {
    NamesAllOfConcat(a, b);
    UnionIsCanonical(a, b);
    assert SpellsAll([CapabilityDropAll][0]);
  }

  lemma UnionAssociates(a: seq<string>, b: seq<string>, c: seq<string>)
    ensures Union(Union(a, b), c) == Union(a, Union(b, c))
  {
    UnionByCases(a, b);
    UnionByCases(b, c);
    UnionByCases(Union(a, b), c);
    UnionByCases(a, Union(b, c));
    if !NamesAll(a) && !NamesAll(b) && !NamesAll(c) {
      DedupLeft(a + b, c);
      DedupRight(a, b + c);
      assert (a + b) + c == a + (b + c);
    }
  }

  /** Adding the same list again changes nothing. */
  lemma UnionAbsorbs(a: seq<string>, b: seq<string>)
    ensures Union(Union(a, b), b) == Union(a, b)
  {
    UnionByCases(a, b);
    UnionByCases(Union(a, b), b);
    if !NamesAll(a) && !NamesAll(b) {
      DedupLeft(a + b, b);
      DedupIgnoresRepeats(a + b, b);
    }
  }

  /** A list is its own union exactly when it is in the accepted shape. */
  lemma CanonicalIsItsOwnUnion(a: seq<string>)
    ensures Canonical(a) <==> Union([], a) == a
  {
    UnionByCases([], a);
    UnionIsCanonical([], a);
    assert [] + a == a;
    if Canonical(a) && !NamesAll(a) {
      DedupFixesDistinct(a);
    }
  }
}
