/** Saving the character form (`admin_edit_character`): the posted skill
    payloads are reconciled with the character's existing skill rows. A payload
    whose id names an existing row overwrites that row in place; any other
    payload creates a new row; an existing row no payload names is deleted. */
module SkillSync {
  import opened Wrappers
  import opened PyStr
  import opened Models
  import opened SkillsForm
  import opened Grouping

  // ---------------------------------------------------------------------------
  // The rows, as the ORM objects the view mutates.

  /** A `Skill` ORM object. `id` 0 is a row not yet flushed (id `None`). */
  class SkillRow {
    var id: nat
    var name: string
    var skillType: Option<string>
    var description: Option<string>
    var validHits: Option<string>
    var cooldown: Option<string>
    var levelInfo: Option<string>

    /** The row's current column values. */
    function Value(): (s: Skill)
      reads this
      ensures s.id == id && s.name == name
    {
      Skill(id, name, skillType, description, validHits, cooldown, levelInfo)
    }

    /** `Skill(character=ch)`: a new, unflushed row with no values yet. */
    constructor ()
      ensures Value() == Unset
    {
      id, name := 0, [];
      skillType, description, validHits, cooldown, levelInfo := None, None, None, None, None;
    }

    /** The six assignments `skill.name = payload.get("name")` and so on. */
    method Assign(p: SkillPayload)
      modifies this
      ensures Value() == Overwrite(old(Value()), p)
    {
      name, skillType, description := p.name, p.skillType, p.description;
      validHits, cooldown, levelInfo := p.validHits, p.cooldown, p.levelInfo;
    }
  }

  function Values(rows: seq<SkillRow>): (vs: seq<Skill>)
    reads rows
    ensures |vs| == |rows|
  {
    if rows == [] then [] else Values(rows[..|rows| - 1]) + [rows[|rows| - 1].Value()]
  }

  lemma {:induction false} ValueAt(rows: seq<SkillRow>, i: nat)
    requires i < |rows|
    ensures Values(rows)[i] == rows[i].Value()
  {
    if i < |rows| - 1 {
      ValueAt(rows[..|rows| - 1], i);
    }
  }

  // ---------------------------------------------------------------------------
  // The outcome, on values.

  const Unset := Skill(0, [], None, None, None, None, None)

  /** A row after the assignments from payload `p`: its id, `p`'s text. */
  function Overwrite(s: Skill, p: SkillPayload): (r: Skill)
    ensures r.id == s.id
  {
    Skill(s.id, p.name, p.skillType, p.description, p.validHits, p.cooldown, p.levelInfo)
  }

  /** The row a payload that matches nothing creates. */
  function NewSkill(p: SkillPayload): (r: Skill)
    ensures r.id == 0
  {
    Overwrite(Unset, p)
  }

  /** The keys of `existing_by_id`: `str(id)` of every row with an id. */
  function IdKeys(before: seq<Skill>): set<string>
  {
    set i | 0 <= i < |before| && before[i].id != 0 :: Decimal(before[i].id)
  }

  /** `skill_id and skill_id in existing_by_id`. */
  predicate Matched(p: SkillPayload, before: seq<Skill>)
  {
    p.id != [] && p.id in IdKeys(before)
  }

  /** The last payload carrying the id `key`, if any. */
  function LastFor(ps: seq<SkillPayload>, key: string): (r: Option<SkillPayload>)
    ensures r.Some? ==> r.value in ps && r.value.id == key
  {
    if ps == [] then None
    else if ps[|ps| - 1].id == key then Some(ps[|ps| - 1])
    else LastFor(ps[..|ps| - 1], key)
  }

  /** An existing row after the first loop: overwritten by the last payload
      that names it, unchanged if none does. */
  function Updated(s: Skill, ps: seq<SkillPayload>): (r: Skill)
    ensures r.id == s.id
  {
    if s.id != 0 && LastFor(ps, Decimal(s.id)).Some? then Overwrite(s, LastFor(ps, Decimal(s.id)).value)
    else s
  }

  /** The rows the first loop creates, one per unmatched payload, in order. */
  function Created(ps: seq<SkillPayload>, before: seq<Skill>): (r: seq<Skill>)
    ensures |r| <= |ps|
  {
    if ps == [] then []
    else
      Created(ps[..|ps| - 1], before) +
      (if Matched(ps[|ps| - 1], before) then [] else [NewSkill(ps[|ps| - 1])])
  }

  /** Every created row is still unflushed: it has no id. */
  lemma {:induction false} CreatedUnflushed(ps: seq<SkillPayload>, before: seq<Skill>, j: nat)
    requires j < |Created(ps, before)|
    ensures Created(ps, before)[j].id == 0
  {
    var init := Created(ps[..|ps| - 1], before);
    if j < |init| {
      CreatedUnflushed(ps[..|ps| - 1], before, j);
    }
  }

  /** `kept_ids` after the first loop: the ids of the payloads that matched. */
  function KeptIds(before: seq<Skill>, ps: seq<SkillPayload>): set<string>
  {
    if ps == [] then {}
    else KeptIds(before, ps[..|ps| - 1]) + (if Matched(ps[|ps| - 1], before) then {ps[|ps| - 1].id} else {})
  }

  /** An id is kept exactly when it is a key of `existing_by_id` and some
      payload carries it. */
  lemma {:induction false} KeptIdsMeaning(before: seq<Skill>, ps: seq<SkillPayload>, key: string)
    ensures key in KeptIds(before, ps) <==> key in IdKeys(before) && LastFor(ps, key).Some?
  {
    if ps != [] {
      KeptIdsMeaning(before, ps[..|ps| - 1], key);
      if key in IdKeys(before) {
        var i :| 0 <= i < |before| && before[i].id != 0 && Decimal(before[i].id) == key;
      }
    }
  }

  lemma KeptIdsTake(before: seq<Skill>, ps: seq<SkillPayload>, k: nat)
    requires k < |ps|
    ensures KeptIds(before, ps[..k + 1]) ==
      KeptIds(before, ps[..k]) + (if Matched(ps[k], before) then {ps[k].id} else {})
  {
    assert ps[..k + 1][..k] == ps[..k];
  }

  /** An existing row the second loop deletes: it has an id and no payload
      carries that id. */
  predicate Deleted(s: Skill, ps: seq<SkillPayload>)
  {
    s.id != 0 && LastFor(ps, Decimal(s.id)).None?
  }

  /** The delete loop's test, `skill.id and str(skill.id) not in kept_ids and
      str(skill.id) in existing_by_id`, holds of an existing row exactly when
      no payload carries its id. */
  lemma DeletedIff(before: seq<Skill>, ps: seq<SkillPayload>, i: nat)
    requires i < |before|
    ensures Deleted(before[i], ps) <==>
      before[i].id != 0 && Decimal(before[i].id) !in KeptIds(before, ps) && Decimal(before[i].id) in IdKeys(before)
  {
    if before[i].id != 0 {
      var key := Decimal(before[i].id);
      assert key in IdKeys(before);
      KeptIdsMeaning(before, ps, key);
    }
  }

  /** The character's skills after the commit: the existing rows not deleted,
      as updated, then the created ones. */
  function AfterSave(before: seq<Skill>, ps: seq<SkillPayload>): (r: seq<Skill>)
    ensures |r| <= |before| + |ps|
  {
    Kept(before, ps) + Created(ps, before)
  }

  function Kept(before: seq<Skill>, ps: seq<SkillPayload>): (r: seq<Skill>)
    ensures |r| <= |before|
  {
    if before == [] then []
    else
      var last := before[|before| - 1];
      Kept(before[..|before| - 1], ps) + (if Deleted(last, ps) then [] else [Updated(last, ps)])
  }

  /** Row ids are a primary key: no two rows share a non-zero id. */
  predicate UniqueIds(before: seq<Skill>)
  {
    forall i, j :: 0 <= i < j < |before| && before[i].id != 0 ==> before[i].id != before[j].id
  }

  /** `existing_by_id` for the rows `skills` whose ids are those of `before`:
      `str(id)` of every row with an id, mapped to that row. */
  function ByKey(skills: seq<SkillRow>, before: seq<Skill>): (m: map<string, SkillRow>)
    requires |before| == |skills|
    ensures |m| <= |skills|
  {
    if skills == [] then map[]
    else
      var n := |skills| - 1;
      var rest := ByKey(skills[..n], before[..n]);
      if before[n].id != 0 then rest[Decimal(before[n].id) := skills[n]] else rest
  }

  /** The row keeps the text of the last payload carrying its id: a later
      duplicate wins over an earlier one. */
  lemma {:induction false} LastWins(ps: seq<SkillPayload>, key: string, j: nat)
    requires j < |ps| && ps[j].id == key
    requires forall l :: j < l < |ps| ==> ps[l].id != key
    ensures LastFor(ps, key) == Some(ps[j])
  {
    if j < |ps| - 1 {
      LastWins(ps[..|ps| - 1], key, j);
    }
  }

  /** No payload carries `key`: nothing is found for it. */
  lemma {:induction false} LastForAbsent(ps: seq<SkillPayload>, key: string)
    requires forall i :: 0 <= i < |ps| ==> ps[i].id != key
    ensures LastFor(ps, key) == None
  {
    if ps != [] {
      LastForAbsent(ps[..|ps| - 1], key);
    }
  }

  /** With no payload matching, nothing is created. */
  lemma {:induction false} NoneCreated(ps: seq<SkillPayload>, before: seq<Skill>)
    requires forall i :: 0 <= i < |ps| ==> Matched(ps[i], before)
    ensures Created(ps, before) == []
  {
    if ps != [] {
      NoneCreated(ps[..|ps| - 1], before);
    }
  }

  /** With every payload unmatched, each creates one row, in order. */
  lemma {:induction false} AllCreated(ps: seq<SkillPayload>, before: seq<Skill>)
    requires forall i :: 0 <= i < |ps| ==> !Matched(ps[i], before)
    ensures |Created(ps, before)| == |ps|
    ensures forall i :: 0 <= i < |ps| ==> Created(ps, before)[i] == NewSkill(ps[i])
  {
    if ps != [] {
      AllCreated(ps[..|ps| - 1], before);
    }
  }

  /** With no row deleted, every row is kept, updated. */
  lemma {:induction false} NoneDeleted(before: seq<Skill>, ps: seq<SkillPayload>)
    requires forall i :: 0 <= i < |before| ==> !Deleted(before[i], ps)
    ensures Kept(before, ps) == UpdatedAll(before, ps)
  {
    if before != [] {
      NoneDeleted(before[..|before| - 1], ps);
    }
  }

  /** Saving the form as it was rendered, one payload per row carrying that
      row's id in row order, overwrites every row with its own payload and
      neither creates nor deletes anything. */
  lemma ResaveKeepsRows(before: seq<Skill>, ps: seq<SkillPayload>)
    requires UniqueIds(before) && |ps| == |before|
    requires forall i :: 0 <= i < |before| ==> before[i].id != 0 && ps[i].id == Decimal(before[i].id)
    ensures Created(ps, before) == []
    ensures forall i :: 0 <= i < |before| ==> !Deleted(before[i], ps)
    ensures |AfterSave(before, ps)| == |before|
    ensures forall i :: 0 <= i < |before| ==> AfterSave(before, ps)[i] == Overwrite(before[i], ps[i])
  {
    forall i | 0 <= i < |before|
      ensures LastFor(ps, Decimal(before[i].id)) == Some(ps[i])
    {
      forall l | i < l < |ps|
        ensures ps[l].id != Decimal(before[i].id)
      {
        DecimalDistinct(before[l].id, before[i].id);
      }
      LastWins(ps, Decimal(before[i].id), i);
    }
    forall i | 0 <= i < |ps|
      ensures Matched(ps[i], before)
    {
      assert ps[i].id in IdKeys(before);
    }
    NoneCreated(ps, before);
    NoneDeleted(before, ps);
    forall i | 0 <= i < |before|
      ensures AfterSave(before, ps)[i] == Overwrite(before[i], ps[i])
    {
      UpdatedAt(before, ps, i);
    }
  }

  /** A form whose payloads carry no id of an existing row (all rows new, say)
      creates one row per payload and deletes every row that has an id. */
  lemma FreshFormReplacesRows(before: seq<Skill>, ps: seq<SkillPayload>)
    requires forall i :: 0 <= i < |ps| ==> !Matched(ps[i], before)
    ensures |Created(ps, before)| == |ps|
    ensures forall i :: 0 <= i < |ps| ==> Created(ps, before)[i] == NewSkill(ps[i])
    ensures forall i :: 0 <= i < |before| ==> (Deleted(before[i], ps) <==> before[i].id != 0)
  {
    AllCreated(ps, before);
    forall i | 0 <= i < |before| && before[i].id != 0
      ensures Deleted(before[i], ps)
    {
      var key := Decimal(before[i].id);
      assert key in IdKeys(before);
      forall l | 0 <= l < |ps|
        ensures ps[l].id != key
      {
        assert !Matched(ps[l], before);
      }
      LastForAbsent(ps, key);
    }
  }

  // ---------------------------------------------------------------------------
  // The view's code.

  /** `existing_by_id = {str(s.id): s for s in ch.skills if s.id}`. */
  method ExistingById(skills: seq<SkillRow>) returns (existing: map<string, SkillRow>)
    ensures existing == ByKey(skills, Values(skills))
  {
    ghost var before := Values(skills);
    existing := map[];
    var i := 0;
    while i < |skills|
      invariant i <= |skills|
      invariant existing == ByKey(skills[..i], before[..i])
    {
      ValueAt(skills, i);
      if skills[i].id != 0 {
        existing := existing[Decimal(skills[i].id) := skills[i]];
      }
      assert skills[..i + 1][..i] == skills[..i] && before[..i + 1][..i] == before[..i];
      i := i + 1;
    }
    assert skills[..i] == skills && before[..i] == before;
  }

  /** The payload loop: each payload overwrites the row its id names, or a new
      row; `kept` collects the ids that named a row. */
  method ApplyPayloads(skills: seq<SkillRow>, payloads: seq<SkillPayload>, existing: map<string, SkillRow>)
    returns (kept: set<string>, created: seq<SkillRow>)
    requires NoDuplicates(skills)
    requires UniqueIds(Values(skills))
    requires existing == ByKey(skills, Values(skills))
    modifies skills
    ensures Values(skills) == UpdatedAll(old(Values(skills)), payloads)
    ensures NewRows(skills, created)
    ensures Values(created) == Created(payloads, old(Values(skills)))
    ensures kept == KeptIds(old(Values(skills)), payloads)
  {
    ghost var before := Values(skills);
    UpdatedAllNone(before);
    assert payloads[..0] == [];
    kept, created := {}, [];
    var k := 0;
    while k < |payloads|
      invariant k <= |payloads|
      invariant Values(skills) == UpdatedAll(before, payloads[..k])
      invariant NewRows(skills, created)
      invariant Values(created) == Created(payloads[..k], before)
      invariant kept == KeptIds(before, payloads[..k])
    {
      kept, created := ApplyPayload(skills, existing, payloads, k, kept, created, before);
      k := k + 1;
    }
    assert payloads[..k] == payloads;
  }

  /** One turn of the payload loop, for the `k`-th payload: the row it names,
      or a new one, is given the payload's text, and a matched id joins
      `kept`. */
  method ApplyPayload(skills: seq<SkillRow>, existing: map<string, SkillRow>, payloads: seq<SkillPayload>, k: nat,
                      kept: set<string>, created: seq<SkillRow>, ghost before: seq<Skill>)
    returns (kept': set<string>, created': seq<SkillRow>)
    requires k < |payloads|
    requires NoDuplicates(skills)
    requires |before| == |skills| && UniqueIds(before)
    requires existing == ByKey(skills, before)
    requires Values(skills) == UpdatedAll(before, payloads[..k])
    requires NewRows(skills, created)
    requires Values(created) == Created(payloads[..k], before)
    requires kept == KeptIds(before, payloads[..k])
    modifies skills
    ensures Values(skills) == UpdatedAll(before, payloads[..k + 1])
    ensures NewRows(skills, created')
    ensures Values(created') == Created(payloads[..k + 1], before)
    ensures kept' == KeptIds(before, payloads[..k + 1])
  {
    var payload := payloads[k];
    var matched, skill;
    matched, skill, created' := FindOrCreate(skills, existing, payload, created, before);
    kept' := NoteKept(kept, matched, payloads, k, before);
    AssignTurn(skill, skills, created, created', payloads, k, before);
  }

  /** `kept_ids.add(skill_id)` for a matched payload: `kept_ids` moves one
      payload on. */
  method NoteKept(kept: set<string>, matched: bool, payloads: seq<SkillPayload>, k: nat, ghost before: seq<Skill>)
    returns (kept': set<string>)
    requires k < |payloads| && matched == Matched(payloads[k], before)
    requires kept == KeptIds(before, payloads[..k])
    ensures kept' == KeptIds(before, payloads[..k + 1])
  {
    kept' := if matched then kept + {payloads[k].id} else kept;
    KeptIdsTake(before, payloads, k);
  }

  /** The assignments of the `k`-th turn, on the row `skill` found or created
      for the payload: the values of the existing rows and of the new rows
      move one payload on. */
  method AssignTurn(skill: SkillRow, skills: seq<SkillRow>, created: seq<SkillRow>, created': seq<SkillRow>,
                    payloads: seq<SkillPayload>, k: nat, ghost before: seq<Skill>)
    requires k < |payloads| && |before| == |skills|
    requires Values(skills) == UpdatedAll(before, payloads[..k])
    requires Values(created) == Created(payloads[..k], before)
    requires forall j :: 0 <= j < |skills| ==>
      (skills[j] == skill <==> before[j].id != 0 && Decimal(before[j].id) == payloads[k].id)
    requires skill !in created
    requires Matched(payloads[k], before) ==> created' == created
    requires !Matched(payloads[k], before) ==> skill.Value() == Unset && created' == created + [skill]
    modifies skill
    ensures Values(skills) == UpdatedAll(before, payloads[..k + 1])
    ensures Values(created') == Created(payloads[..k + 1], before)
  {
    ghost var was := Values(skills);
    AssignAmong(skill, payloads[k], skills, created);
    if !Matched(payloads[k], before) {
      ValuesSnoc(created, skill);
    }
    CreatedTake(payloads, k, before);
    UpdatedStep(before, payloads, k, skills, skill, was, Values(skills));
  }

  /** The values after one turn: the rows `skill` stands for (those whose id
      prints as the payload's) are overwritten, the others keep their value. */
  lemma UpdatedStep(before: seq<Skill>, payloads: seq<SkillPayload>, k: nat,
                    rows: seq<SkillRow>, skill: SkillRow, was: seq<Skill>, now: seq<Skill>)
    requires k < |payloads| && |rows| == |before| == |was| == |now|
    requires was == UpdatedAll(before, payloads[..k])
    requires forall j :: 0 <= j < |rows| ==>
      (rows[j] == skill <==> before[j].id != 0 && Decimal(before[j].id) == payloads[k].id)
    requires forall j :: 0 <= j < |rows| ==>
      now[j] == if rows[j] == skill then Overwrite(was[j], payloads[k]) else was[j]
    ensures now == UpdatedAll(before, payloads[..k + 1])
  {
    var want := UpdatedAll(before, payloads[..k + 1]);
    forall j | 0 <= j < |rows|
      ensures now[j] == want[j]
    {
      UpdatedAt(before, payloads[..k], j);
      UpdatedAt(before, payloads[..k + 1], j);
      UpdatedTake(before[j], payloads, k);
    }
  }

  /** `skill.Assign(p)` seen from the collections around it: the rows of
      `rows` other than `skill` keep their values, and `others`, which does
      not hold `skill`, is untouched. */
  method AssignAmong(skill: SkillRow, p: SkillPayload, rows: seq<SkillRow>, others: seq<SkillRow>)
    requires skill !in others
    modifies skill
    ensures skill.Value() == Overwrite(old(skill.Value()), p)
    ensures Values(others) == old(Values(others))
    ensures forall j :: 0 <= j < |rows| ==>
      Values(rows)[j] == if rows[j] == skill then Overwrite(old(Values(rows))[j], p) else old(Values(rows))[j]
  {
    ghost var was := Values(rows);
    forall j | 0 <= j < |rows|
      ensures was[j] == rows[j].Value()
    {
      ValueAt(rows, j);
    }
    skill.Assign(p);
    forall j | 0 <= j < |rows|
      ensures Values(rows)[j] == if rows[j] == skill then Overwrite(was[j], p) else was[j]
    {
      ValueAt(rows, j);
    }
  }

  /** `skill = existing_by_id[skill_id]` when `skill_id and skill_id in
      existing_by_id`, else `skill = Skill(character=ch)`, a new row added to
      the collection. The row found is the one whose id prints as the
      payload's id. */
  method FindOrCreate(skills: seq<SkillRow>, existing: map<string, SkillRow>, payload: SkillPayload,
                      created: seq<SkillRow>, ghost before: seq<Skill>)
    returns (matched: bool, skill: SkillRow, created': seq<SkillRow>)
    requires NoDuplicates(skills)
    requires |before| == |skills| && UniqueIds(before)
    requires existing == ByKey(skills, before)
    requires NewRows(skills, created)
    ensures matched == Matched(payload, before)
    ensures forall j :: 0 <= j < |skills| ==>
      (skills[j] == skill <==> before[j].id != 0 && Decimal(before[j].id) == payload.id)
    ensures skill !in created
    ensures matched ==> created' == created
    ensures !matched ==> fresh(skill) && skill.Value() == Unset && created' == created + [skill]
    ensures NewRows(skills, created')
  {
    var skillId := payload.id;
    assert (skillId in existing) == (skillId in IdKeys(before)) by {
      ByKeyKeys(skills, before);
    }
    if skillId != [] && skillId in existing {
      skill := existing[skillId];
      matched, created' := true, created;
      ghost var m := ByKeyFind(skills, before, skillId);
      OnlyOneRowPerKey(skills, before, m, skillId);
    } else {
      skill := new SkillRow();
      matched, created' := false, created + [skill];
      NoRowForKey(before, skillId);
      DistinctAppend(created, [skill]);
    }
  }

  /** The delete loop's test: the row has an id, which was in `existing_by_id`
      but not in `kept_ids`. */
  predicate Doomed(x: SkillRow, kept: set<string>, existing: map<string, SkillRow>)
    reads x
  {
    x.id != 0 && Decimal(x.id) !in kept && Decimal(x.id) in existing
  }

  /** The delete loop: the rows with an id that was in `existing_by_id` but
      not in `kept_ids`. */
  method CollectDeleted(rows: seq<SkillRow>, kept: set<string>, existing: map<string, SkillRow>)
    returns (deleted: seq<SkillRow>)
    ensures forall x :: x in deleted <==> x in rows && old(Doomed(x, kept, existing))
    ensures Values(rows) == old(Values(rows))
  {
    deleted := [];
    var r := 0;
    while r < |rows|
      invariant r <= |rows|
      invariant forall x :: x in deleted <==> x in rows[..r] && Doomed(x, kept, existing)
    {
      var skill := rows[r];
      if skill.id != 0 && Decimal(skill.id) !in kept && Decimal(skill.id) in existing {
        deleted := deleted + [skill];
      }
      assert rows[..r + 1] == rows[..r] + [skill];
      r := r + 1;
    }
    assert rows[..r] == rows;
  }

  /** The first half of the reconciliation: `existing_by_id`, then the payload
      loop. Described by what it means for the delete loop that follows: the
      rows (existing, then new) have moved through all the payloads, and the
      delete loop's test picks out exactly the existing rows no payload names. */
  method SavePayloads(skills: seq<SkillRow>, payloads: seq<SkillPayload>)
    returns (existing: map<string, SkillRow>, kept: set<string>, created: seq<SkillRow>)
    requires NoDuplicates(skills)
    requires UniqueIds(Values(skills))
    modifies skills
    ensures NewRows(skills, created)
    ensures Values(skills + created) == UpdatedAll(old(Values(skills)), payloads) + Created(payloads, old(Values(skills)))
    ensures forall i :: 0 <= i < |skills| ==>
      (Doomed(skills[i], kept, existing) <==> Deleted(old(Values(skills))[i], payloads))
    ensures forall j :: 0 <= j < |created| ==> !Doomed(created[j], kept, existing)
  {
    ghost var before := Values(skills);
    existing := ExistingById(skills);
    kept, created := ApplyPayloads(skills, payloads, existing);
    DoomedRows(skills, created, kept, existing, before, payloads);
    ValuesAppend(skills, created);
  }

  /** The reconciliation in `admin_edit_character`. `skills` is `ch.skills`;
      `rows` is `list(ch.skills)` at the delete loop (the new rows joined the
      collection when they were created) and `deleted` the rows passed to
      `db.session.delete`. */
  method Reconcile(skills: seq<SkillRow>, payloads: seq<SkillPayload>)
    returns (rows: seq<SkillRow>, deleted: seq<SkillRow>)
    requires NoDuplicates(skills)
    requires UniqueIds(Values(skills))
    modifies skills
    ensures |rows| >= |skills| && rows[..|skills|] == skills
    ensures forall r :: r in rows[|skills|..] ==> r !in skills
    ensures NoDuplicates(rows)
    ensures Values(rows) == UpdatedAll(old(Values(skills)), payloads) + Created(payloads, old(Values(skills)))
    ensures forall i :: 0 <= i < |skills| ==> (skills[i] in deleted <==> Deleted(old(Values(skills))[i], payloads))
    ensures forall r :: r in deleted ==> r in skills
    ensures Surviving(rows, deleted) == AfterSave(old(Values(skills)), payloads)
  {
    var existing, kept, created := SavePayloads(skills, payloads);
    rows := skills + created;
    deleted := CollectDeleted(rows, kept, existing);
    assert rows[..|skills|] == skills && rows[|skills|..] == created;
    ReconcileLeavesAfterSave(skills, payloads, old(Values(skills)), rows, deleted);
    DistinctAppend(skills, created);
  }

  /** The rows created so far: no two are the same object, and none is one
      of the existing rows. */
  predicate NewRows(skills: seq<SkillRow>, created: seq<SkillRow>)
  {
    NoDuplicates(created) && forall c :: c in created ==> c !in skills
  }

  /** Two sequences of distinct rows with no row in common concatenate to a
      sequence of distinct rows. */
  lemma DistinctAppend(a: seq<SkillRow>, b: seq<SkillRow>)
    requires NoDuplicates(a) && NoDuplicates(b)
    requires forall c :: c in b ==> c !in a
    ensures NoDuplicates(a + b)
  {
    forall i, j | 0 <= i < j < |a + b|
      ensures (a + b)[i] != (a + b)[j]
    {
      if i < |a| <= j {
        assert (a + b)[j] == b[j - |a|] && b[j - |a|] in b;
      }
    }
  }

  lemma {:induction false} ValuesAppend(a: seq<SkillRow>, b: seq<SkillRow>)
    ensures Values(a + b) == Values(a) + Values(b)
  {
    if b != [] {
      var n := |b| - 1;
      ValuesAppend(a, b[..n]);
      assert (a + b)[..|a + b| - 1] == a + b[..n];
    } else {
      assert a + b == a;
    }
  }

  /** The values of the rows not passed to `delete`, in order: what the
      character's skills hold once the session commits. */
  function Surviving(rows: seq<SkillRow>, deleted: seq<SkillRow>): (vs: seq<Skill>)
    reads rows
    ensures |vs| <= |rows|
  {
    if rows == [] then []
    else
      var last := rows[|rows| - 1];
      Surviving(rows[..|rows| - 1], deleted) + (if last in deleted then [] else [last.Value()])
  }

  lemma {:induction false} SurvivingAppend(a: seq<SkillRow>, b: seq<SkillRow>, deleted: seq<SkillRow>)
    ensures Surviving(a + b, deleted) == Surviving(a, deleted) + Surviving(b, deleted)
  {
    if b != [] {
      SurvivingAppend(a, b[..|b| - 1], deleted);
      assert (a + b)[..|a + b| - 1] == a + b[..|b| - 1];
    } else {
      assert a + b == a;
    }
  }

  /** Rows none of which is deleted all survive, with their values. */
  lemma {:induction false} SurvivingUntouched(rows: seq<SkillRow>, deleted: seq<SkillRow>)
    requires forall r :: r in rows ==> r !in deleted
    ensures Surviving(rows, deleted) == Values(rows)
  {
    if rows != [] {
      SurvivingUntouched(rows[..|rows| - 1], deleted);
    }
  }

  /** Existing rows holding the updated values and deleted exactly when
      `Deleted` says so survive as `Kept`. */
  lemma {:induction false} SurvivingExisting(skills: seq<SkillRow>, deleted: seq<SkillRow>,
                                             before: seq<Skill>, ps: seq<SkillPayload>)
    requires |before| == |skills| && Values(skills) == UpdatedAll(before, ps)
    requires forall i :: 0 <= i < |skills| ==> (skills[i] in deleted <==> Deleted(before[i], ps))
    ensures Surviving(skills, deleted) == Kept(before, ps)
  {
    if skills != [] {
      var n := |skills| - 1;
      assert Values(skills) == Values(skills[..n]) + [skills[n].Value()];
      assert Values(skills[..n]) == Values(skills)[..n];
      assert UpdatedAll(before[..n], ps) == UpdatedAll(before, ps)[..n];
      SurvivingExisting(skills[..n], deleted, before[..n], ps);
      ValueAt(skills, n);
      UpdatedAt(before, ps, n);
    }
  }

  /** What `Reconcile` leaves behind, once the deleted rows are gone, is
      `AfterSave`: the kept rows as updated, then the created ones. */
  lemma ReconcileLeavesAfterSave(skills: seq<SkillRow>, ps: seq<SkillPayload>, before: seq<Skill>,
                                 rows: seq<SkillRow>, deleted: seq<SkillRow>)
    requires |before| == |skills| && |rows| >= |skills| && rows[..|skills|] == skills
    requires forall r :: r in rows[|skills|..] ==> r !in skills
    requires Values(rows) == UpdatedAll(before, ps) + Created(ps, before)
    requires forall i :: 0 <= i < |skills| ==> (skills[i] in deleted <==> Deleted(before[i], ps))
    requires forall r :: r in deleted ==> r in skills
    ensures Surviving(rows, deleted) == AfterSave(before, ps)
  {
    var created := rows[|skills|..];
    assert rows == skills + created;
    ValuesAppend(skills, created);
    var u, c := UpdatedAll(before, ps), Created(ps, before);
    assert Values(skills) == (u + c)[..|skills|] == u;
    assert Values(created) == (u + c)[|skills|..] == c;
    SurvivingAppend(skills, created, deleted);
    SurvivingExisting(skills, deleted, before, ps);
    SurvivingUntouched(created, deleted);
  }

  /** What the delete loop removes, given the state the payload loop left:
      exactly the existing rows no payload names, and no new row. */
  lemma DoomedRows(skills: seq<SkillRow>, created: seq<SkillRow>,
                   kept: set<string>, existing: map<string, SkillRow>, before: seq<Skill>, ps: seq<SkillPayload>)
    requires |before| == |skills|
    requires Values(skills) == UpdatedAll(before, ps)
    requires Values(created) == Created(ps, before)
    requires kept == KeptIds(before, ps)
    requires existing == ByKey(skills, before)
    ensures forall i :: 0 <= i < |skills| ==> (Doomed(skills[i], kept, existing) <==> Deleted(before[i], ps))
    ensures forall j :: 0 <= j < |created| ==> !Doomed(created[j], kept, existing)
  {
    ByKeyKeys(skills, before);
    forall i | 0 <= i < |skills|
      ensures Doomed(skills[i], kept, existing) <==> Deleted(before[i], ps)
    {
      ValueAt(skills, i);
      UpdatedAt(before, ps, i);
      DeletedIff(before, ps, i);
    }
    forall j | 0 <= j < |created|
      ensures created[j].id == 0
    {
      ValueAt(created, j);
      CreatedUnflushed(ps, before, j);
    }
  }

  /** The keys of `existing_by_id` are the printed ids. */
  lemma {:induction false} ByKeyKeys(skills: seq<SkillRow>, before: seq<Skill>)
    requires |before| == |skills|
    ensures ByKey(skills, before).Keys == IdKeys(before)
  {
    if skills != [] {
      var n := |skills| - 1;
      ByKeyKeys(skills[..n], before[..n]);
      IdKeysTake(before, n);
      assert before[..n + 1] == before;
    }
  }

  /** `existing_by_id[key]` is a row of `skills` whose id prints as `key`. */
  lemma {:induction false} ByKeyFind(skills: seq<SkillRow>, before: seq<Skill>, key: string) returns (m: nat)
    requires |before| == |skills| && key in ByKey(skills, before)
    ensures m < |skills| && ByKey(skills, before)[key] == skills[m]
    ensures before[m].id != 0 && Decimal(before[m].id) == key
  {
    var n := |skills| - 1;
    if before[n].id != 0 && Decimal(before[n].id) == key {
      m := n;
    } else {
      m := ByKeyFind(skills[..n], before[..n], key);
    }
  }

  /** Under unique ids, the row `existing_by_id[key]` is the only row whose id
      prints as `key`. */
  lemma OnlyOneRowPerKey(skills: seq<SkillRow>, before: seq<Skill>, m: nat, key: string)
    requires NoDuplicates(skills)
    requires |before| == |skills| && UniqueIds(before)
    requires m < |skills| && before[m].id != 0 && Decimal(before[m].id) == key
    ensures forall j :: 0 <= j < |skills| && skills[j] != skills[m] ==>
      before[j].id == 0 || Decimal(before[j].id) != key
  {
    forall j | 0 <= j < |skills| && skills[j] != skills[m] && before[j].id != 0
      ensures Decimal(before[j].id) != key
    {
      assert j != m;
      DecimalDistinct(before[j].id, before[m].id);
    }
  }

  /** A key outside `existing_by_id` prints no row's id. */
  lemma NoRowForKey(before: seq<Skill>, key: string)
    requires key == [] || key !in IdKeys(before)
    ensures forall j :: 0 <= j < |before| && before[j].id != 0 ==> Decimal(before[j].id) != key
  {
    forall j | 0 <= j < |before| && before[j].id != 0
      ensures Decimal(before[j].id) != key
    {
      assert Decimal(before[j].id) in IdKeys(before);
    }
  }

  lemma ValuesSnoc(rows: seq<SkillRow>, r: SkillRow)
    ensures Values(rows + [r]) == Values(rows) + [r.Value()]
  {
    assert (rows + [r])[..|rows|] == rows;
  }

  lemma UpdatedTake(b: Skill, ps: seq<SkillPayload>, k: nat)
    requires k < |ps|
    ensures Updated(b, ps[..k + 1]) ==
      if b.id != 0 && ps[k].id == Decimal(b.id) then Overwrite(b, ps[k]) else Updated(b, ps[..k])
  {
    if b.id != 0 {
      LastForTake(ps, k, Decimal(b.id));
    }
  }

  /** Every existing row after the payloads `ps`, in order. */
  function UpdatedAll(before: seq<Skill>, ps: seq<SkillPayload>): (r: seq<Skill>)
    ensures |r| == |before|
  {
    if before == [] then [] else UpdatedAll(before[..|before| - 1], ps) + [Updated(before[|before| - 1], ps)]
  }

  lemma {:induction false} UpdatedAt(before: seq<Skill>, ps: seq<SkillPayload>, i: nat)
    requires i < |before|
    ensures UpdatedAll(before, ps)[i] == Updated(before[i], ps)
  {
    if i < |before| - 1 {
      UpdatedAt(before[..|before| - 1], ps, i);
    }
  }

  /** No payloads, no change. */
  lemma UpdatedAllNone(before: seq<Skill>)
    ensures UpdatedAll(before, []) == before
  {
    forall i | 0 <= i < |before|
      ensures UpdatedAll(before, [])[i] == before[i]
    {
      UpdatedAt(before, [], i);
    }
  }

  lemma IdKeysTake(before: seq<Skill>, i: nat)
    requires i < |before|
    ensures IdKeys(before[..i + 1]) == IdKeys(before[..i]) + (if before[i].id != 0 then {Decimal(before[i].id)} else {})
  {
    var a, b := before[..i], before[..i + 1];
    assert forall j :: 0 <= j < i ==> b[j] == a[j];
    assert b[i] == before[i];
    forall key | key in IdKeys(b)
      ensures key in IdKeys(a) || (before[i].id != 0 && key == Decimal(before[i].id))
    {
      var j :| 0 <= j < |b| && b[j].id != 0 && Decimal(b[j].id) == key;
      if j < i {
        assert a[j] == b[j];
      }
    }
    forall key | key in IdKeys(a)
      ensures key in IdKeys(b)
    {
      var j :| 0 <= j < |a| && a[j].id != 0 && Decimal(a[j].id) == key;
      assert b[j] == a[j];
    }
    if before[i].id != 0 {
      assert Decimal(b[i].id) in IdKeys(b);
    }
  }

  lemma LastForTake(ps: seq<SkillPayload>, k: nat, key: string)
    requires k < |ps|
    ensures LastFor(ps[..k + 1], key) == if ps[k].id == key then Some(ps[k]) else LastFor(ps[..k], key)
  {
    var q := ps[..k + 1];
    assert q != [] && q[|q| - 1] == ps[k] && q[..|q| - 1] == ps[..k];
  }

  lemma DecimalDistinct(a: nat, b: nat)
    requires a != b
    ensures Decimal(a) != Decimal(b)
  {
    if Decimal(a) == Decimal(b) {
      DecimalInjective(a, b);
    }
  }

  lemma CreatedTake(ps: seq<SkillPayload>, k: nat, before: seq<Skill>)
    requires k < |ps|
    ensures Created(ps[..k + 1], before) ==
      Created(ps[..k], before) + (if Matched(ps[k], before) then [] else [NewSkill(ps[k])])
  {
    assert ps[..k + 1][..k] == ps[..k];
  }
}
