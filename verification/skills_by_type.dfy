/** The character page groups the character's skills by type
    (`skills_by_type.setdefault(s.type or "Other", []).append(s)`): one group
    per type in the order the types first appear, skills in their own order. */
module SkillsByType {
  import opened Wrappers
  import opened Models
  import opened Grouping

  /** `s.type or "Other"`: a missing or empty type counts as `Other`. */
  function TypeKey(s: Skill): (k: string)
    ensures k != []
    ensures k == "Other" <==> s.skillType in {None, Some(""), Some("Other")}
    ensures k != "Other" ==> s.skillType == Some(k)
  {
    if s.skillType.Some? && s.skillType.value != [] then s.skillType.value else "Other"
  }

  /** The view's loop. `order` is the insertion order of the dictionary, which
      is the order the template shows the groups in. */
  method GroupByType(skills: seq<Skill>) returns (order: seq<string>, groups: map<string, seq<Skill>>)
    ensures order == FirstSeen(skills, TypeKey)
    ensures groups.Keys == set k | k in order
    ensures forall k :: k in groups ==> groups[k] == OfKey(skills, TypeKey, k)
  {
    order, groups := [], map[];
    var i := 0;
    while i < |skills|
      invariant i <= |skills|
      invariant order == FirstSeen(skills[..i], TypeKey)
      invariant groups == Grouped(skills[..i], TypeKey)
    {
      var s := skills[i];
      var key := TypeKey(s);
      FirstSeenTake(skills, i, TypeKey);
      GroupedTake(skills, i, TypeKey, groups);
      if key !in groups {
        order := order + [key];
        groups := groups[key := []];
      }
      groups := groups[key := groups[key] + [s]];
      i := i + 1;
    }
    assert skills[..i] == skills;
    GroupedHoldsGroups(skills, TypeKey);
  }

  /** Every skill is shown exactly once: the groups' sizes add up to the number
      of skills, and each skill is in the group of its own type. */
  lemma GroupsPartition(skills: seq<Skill>)
    ensures GroupSizes(FirstSeen(skills, TypeKey), skills, TypeKey) == |skills|
  {
    FirstSeenCovers(skills, TypeKey);
    Partition(FirstSeen(skills, TypeKey), skills, TypeKey);
  }

  /** A skill typed `Other` and a skill without a type share one group. */
  lemma UntypedJoinsOther(a: Skill, b: Skill)
    requires a.skillType == None && b.skillType == Some("Other")
    ensures TypeKey(a) == TypeKey(b)
  {
  }
}
