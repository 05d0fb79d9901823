/** The read-only skill pages (skills/views.py): the filtered skill list and
  * the detail page with its related skills. */
module SkillsViews {
  import opened Strings
  import opened Tables
  import opened Skills

  /** `skill_list`: active skills, narrowed step by step by category, search text and
    * difficulty; an empty search text or difficulty applies no narrowing. */
  function SkillList(skills: seq<Skill>, category: Option<nat>, q: string, difficulty: string): (r: seq<Skill>)
    ensures |r| <= |skills|
    ensures forall s :: s in r <==>
      && s in skills
      && s.isActive
      && (category.Some? ==> s.categoryId == category.value)
      && (q != "" ==> IContains(s.name, q) || IContains(s.description, q))
      && (difficulty != "" ==> s.difficulty == difficulty)
    ensures CatalogValid(skills) ==> NoDuplicates(r)
  {
    var active := Filter(skills, (s: Skill) => s.isActive);
    var inCategory :=
      if category.Some? then Filter(active, (s: Skill) => s.categoryId == category.value) else active;
    var found :=
      if q != "" then Filter(inCategory, (s: Skill) => IContains(s.name, q) || IContains(s.description, q))
      else inCategory;
    if difficulty != "" then Filter(found, (s: Skill) => s.difficulty == difficulty) else found
  }

  /** The first active skill with primary key `pk`, as `get_object_or_404` looks it up. */
  function FindActiveSkill(skills: seq<Skill>, pk: nat): (r: Option<Skill>)
    ensures r.None? <==> forall s :: s in skills ==> !(s.id == pk && s.isActive)
    ensures r.Some? ==> r.value in skills && r.value.id == pk && r.value.isActive
  {
    if skills == [] then None
    else if skills[0].id == pk && skills[0].isActive then Some(skills[0])
    else FindActiveSkill(skills[1..], pk)
  }

  /** The active skills of `skill`'s category other than `skill` itself, in catalogue order. */
  function SameCategoryOthers(skills: seq<Skill>, skill: Skill): (r: seq<Skill>)
    ensures forall t :: t in r <==> t in skills && t.isActive && t.categoryId == skill.categoryId && t.id != skill.id
  {
    Filter(skills, (t: Skill) => t.categoryId == skill.categoryId && t.isActive && t.id != skill.id)
  }

  datatype SkillPage = SkillPage(skill: Skill, related: seq<Skill>)

  /** `skill_detail`: not found unless an active skill has key `pk`; otherwise the skill and
    * up to four other active skills of its category, taken in catalogue order. */
  function SkillDetail(skills: seq<Skill>, pk: nat): (r: Option<SkillPage>)
    ensures r.None? <==> forall s :: s in skills ==> !(s.id == pk && s.isActive)
    ensures r.Some? ==> r.value.skill in skills && r.value.skill.id == pk && r.value.skill.isActive
    ensures r.Some? ==> |r.value.related| <= 4
    ensures r.Some? ==> forall t :: t in r.value.related ==>
      t in skills && t.isActive && t.categoryId == r.value.skill.categoryId && t.id != pk
    ensures r.Some? && |r.value.related| < 4 ==> forall t ::
      t in skills && t.isActive && t.categoryId == r.value.skill.categoryId && t.id != pk ==> t in r.value.related
    ensures r.Some? ==>
      && |r.value.related| <= |SameCategoryOthers(skills, r.value.skill)|
      && r.value.related == SameCategoryOthers(skills, r.value.skill)[..|r.value.related|]
  {
    match FindActiveSkill(skills, pk)
    case None => None
    case Some(skill) =>
      var candidates := SameCategoryOthers(skills, skill);
      var related := Take(candidates, 4);
      assert forall t :: t in related ==> t in candidates;
      Some(SkillPage(skill, related))
  }
}
