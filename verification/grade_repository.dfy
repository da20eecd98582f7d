/** The grade table: the grades of a subject, lookups, insertion, update and deletion. */
module GradeRepository {
  import opened Wrappers
  import opened Table
  import opened Store

  /** getAllForSubject: the grades of that subject, in table order; possibly none. */
  function GetAllForSubject(grades: seq<Grade>, subjectId: Id): (r: seq<Grade>)
    ensures forall g :: g in r <==> g in grades && g.subjectId == subjectId
  {
    Filter(grades, (g: Grade) => g.subjectId == subjectId)
  }

  /** checkSubjectExistance: the subject with that id, if any. */
  function CheckSubjectExistance(subjects: seq<Subject>, subjectId: Id): (r: Option<Subject>)
    ensures r.Some? ==> r.value in subjects && r.value.id == subjectId
    ensures r.None? <==> forall s :: s in subjects ==> s.id != subjectId
  {
    FindFirst(subjects, SubjectIdIs(subjectId))
  }

  /** getById: the grade with that id, if any. */
  function GetById(grades: seq<Grade>, id: Id): (r: Option<Grade>)
    ensures r.Some? ==> r.value in grades && r.value.id == id
    ensures r.None? <==> forall g :: g in grades ==> g.id != id
  {
    FindFirst(grades, GradeIdIs(id))
  }

  /** create: inserts the grade, unless the database refuses it because the id is taken. */
  method Create(db: Database, id: Id, subjectId: Id, grade: string, gradeType: string, date: Date)
    returns (r: Option<Grade>)
    requires db.Valid()
    modifies db`grades
    ensures db.Valid()
    ensures r.Some? <==> forall g :: g in old(db.grades) ==> g.id != id
    ensures r.Some? ==> r.value == Grade(id, subjectId, grade, gradeType, date) && db.grades == old(db.grades) + [r.value]
    ensures r.None? ==> db.grades == old(db.grades)
  {
    if GetById(db.grades, id).None? {
      var g := Grade(id, subjectId, grade, gradeType, date);
      AppendKeepsUniqueKeys(db.grades, g, GradeId);
      db.grades := db.grades + [g];
      r := Some(g);
    } else {
      r := None;
    }
  }

  /** update: sets grade, type and date of the grade with that id; its subject stays. */
  method Update(db: Database, id: Id, grade: string, gradeType: string, date: Date) returns (r: Option<Grade>)
    requires db.Valid()
    modifies db`grades
    ensures db.Valid()
    ensures r.None? <==> GetById(old(db.grades), id).None?
    ensures r.Some? ==> var g := GetById(old(db.grades), id).value;
                        r.value == Grade(id, g.subjectId, grade, gradeType, date)
    ensures r.Some? ==> db.grades == Table.Update(old(db.grades), GradeIdIs(id), RegradeGrade(grade, gradeType, date))
    ensures r.None? ==> db.grades == old(db.grades)
  {
    var found := GetById(db.grades, id);
    if found.Some? {
      UpdateKeepsUniqueKeys(db.grades, GradeIdIs(id), RegradeGrade(grade, gradeType, date), GradeId);
      db.grades := Table.Update(db.grades, GradeIdIs(id), RegradeGrade(grade, gradeType, date));
      r := Some(RegradeGrade(grade, gradeType, date)(found.value));
    } else {
      r := None;
    }
  }

  /** delete: removes the grade with that id and returns it; nothing to delete is a failure. */
  method Delete(db: Database, id: Id) returns (r: Option<Grade>)
    requires db.Valid()
    modifies db`grades
    ensures db.Valid()
    ensures r == GetById(old(db.grades), id)
    ensures r.Some? ==> db.grades == Filter(old(db.grades), GradeIdIsNot(id))
    ensures r.None? ==> db.grades == old(db.grades)
  {
    r := GetById(db.grades, id);
    if r.Some? {
      FilterKeepsUniqueKeys(db.grades, GradeIdIsNot(id), GradeId);
      db.grades := Filter(db.grades, GradeIdIsNot(id));
    }
  }

  /** Deleting a grade just created, by its id, gives back the table as it was. */
  lemma DeleteUndoesCreate(grades: seq<Grade>, g: Grade)
    requires forall h :: h in grades ==> h.id != g.id
    ensures Filter(grades + [g], GradeIdIsNot(g.id)) == grades
  {
    DeleteUndoesInsert(grades, g, GradeIdIsNot(g.id));
  }

  /** After an update, looking the grade up by id finds it with the new grade, type and date and its old
    * subject. */
  lemma UpdatedGradeIsFound(grades: seq<Grade>, id: Id, grade: string, gradeType: string, date: Date)
    requires UniqueKeys(grades, GradeId)
    requires GetById(grades, id).Some?
    ensures var g := GetById(grades, id).value;
            GetById(Table.Update(grades, GradeIdIs(id), RegradeGrade(grade, gradeType, date)), id) ==
              Some(Grade(id, g.subjectId, grade, gradeType, date))
  {
    var g := GetById(grades, id).value;
    var after := Table.Update(grades, GradeIdIs(id), RegradeGrade(grade, gradeType, date));
    var i :| 0 <= i < |grades| && grades[i] == g;
    assert after[i].id == id;
    var h := GetById(after, id).value;
    var k :| 0 <= k < |after| && after[k] == h;
    assert grades[k].id == id;
    SameKeySameRow(grades, GradeId, grades[k], g);
  }
}
