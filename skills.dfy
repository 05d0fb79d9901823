/** The skill catalogue (skills/models.py): skills with a difficulty choice
  * and a directed, non-symmetric prerequisite relation between skills. */
module Skills {
  import opened Tables

  /** The four values the `difficulty_level` choice field offers; the first is the default. */
  const DifficultyLevels: seq<string> := ["beginner", "intermediate", "advanced", "expert"]

  const DefaultEstimatedHours: nat := 40

  /** A `Skill` row; `prerequisites` holds the ids of the skills it requires. */
  datatype Skill = Skill(
    id: nat,
    name: string,
    description: string,
    categoryId: nat,
    difficulty: string,
    estimatedHours: nat,
    prerequisites: set<nat>,
    isActive: bool)

  /** Skill ids are primary keys, and every prerequisite refers to a skill of the catalogue. */
  predicate CatalogValid(catalog: seq<Skill>) {
    && (forall i, j :: 0 <= i < j < |catalog| ==> catalog[i].id != catalog[j].id)
    && (forall s, k :: s in catalog && k in s.prerequisites ==> exists t :: t in catalog && t.id == k)
  }

  /** A skill created with only its required fields given: the field defaults fill in the rest. */
  function NewSkill(id: nat, name: string, description: string, categoryId: nat, isActive: bool): (s: Skill)
    ensures s.difficulty in DifficultyLevels && DifficultyColor(s.difficulty) == "success"
    ensures s.estimatedHours == DefaultEstimatedHours && s.prerequisites == {}
  {
    Skill(id, name, description, categoryId, DifficultyLevels[0], DefaultEstimatedHours, {}, isActive)
  }

  /** `get_difficulty_color`: a badge colour per difficulty, `secondary` for anything else. */
  function DifficultyColor(level: string): (color: string)
    ensures color != "secondary" <==> level in DifficultyLevels
    ensures color in ["success", "info", "warning", "danger", "secondary"]
  {
    if level == "beginner" then "success"
    else if level == "intermediate" then "info"
    else if level == "advanced" then "warning"
    else if level == "expert" then "danger"
    else "secondary"
  }

  /** The four difficulty levels get four different colours. */
  lemma DifficultyColorsDistinct(i: nat, j: nat)
    requires i < j < |DifficultyLevels|
    ensures DifficultyColor(DifficultyLevels[i]) != DifficultyColor(DifficultyLevels[j])
  {
  }

  /** `required_for`: the skills that list skill `id` among their prerequisites. */
  function RequiredFor(catalog: seq<Skill>, id: nat): set<nat> {
    set s | s in catalog && id in s.prerequisites :: s.id
  }

  /** `required_for` is the inverse of `prerequisites`: `b` is in `a`'s `required_for` exactly when `b` lists `a`. */
  lemma RequiredForInverse(catalog: seq<Skill>, a: Skill, b: Skill)
    requires CatalogValid(catalog)
    requires a in catalog && b in catalog
    ensures b.id in RequiredFor(catalog, a.id) <==> a.id in b.prerequisites
  {
    if b.id in RequiredFor(catalog, a.id) {
      var s :| s in catalog && a.id in s.prerequisites && s.id == b.id;
      var i, j :| 0 <= i < |catalog| && catalog[i] == s && 0 <= j < |catalog| && catalog[j] == b;
      assert i == j;
    }
  }

  /** The relation is not symmetric: listing `a` as a prerequisite of `b` does not make `b` one of `a`. */
  lemma PrerequisitesNotSymmetric()
    ensures var a := Skill(1, "Python", "", 1, "beginner", 40, {}, true);
            var b := Skill(2, "Django", "", 1, "intermediate", 60, {1}, true);
            && CatalogValid([a, b])
            && a.id in b.prerequisites && b.id !in a.prerequisites
            && RequiredFor([a, b], a.id) == {b.id} && RequiredFor([a, b], b.id) == {}
  {
    var a := Skill(1, "Python", "", 1, "beginner", 40, {}, true);
    var b := Skill(2, "Django", "", 1, "intermediate", 60, {1}, true);
    assert a in [a, b];
    RequiredForInverse([a, b], a, b);
    RequiredForInverse([a, b], b, a);
    RequiredForInverse([a, b], a, a);
    RequiredForInverse([a, b], b, b);
  }

  /** Nothing rules out cycles: two skills that require each other form a valid catalogue. */
  lemma PrerequisiteCycleAllowed()
    ensures var a := Skill(1, "Networking", "", 1, "beginner", 40, {2}, true);
            var b := Skill(2, "Security", "", 1, "advanced", 40, {1}, true);
            && CatalogValid([a, b])
            && a.id in RequiredFor([a, b], b.id) && b.id in RequiredFor([a, b], a.id)
  {
    var a := Skill(1, "Networking", "", 1, "beginner", 40, {2}, true);
    var b := Skill(2, "Security", "", 1, "advanced", 40, {1}, true);
    assert a in [a, b] && b in [a, b];
  }
}
