/** Listing, creating, updating and deleting the grades of a subject. */
module GradeService {
  import opened Wrappers
  import opened Errors
  import opened Store
  import opened Table
  import GradeRepository

  class GradeService {
    const db: Database

    constructor (db: Database)
      ensures this.db == db
    {
      this.db := db;
    }

    /** getAllForSubject: the subject's grades, or NotFound when it has none. */
    method GetAllForSubject(subjectId: Id) returns (r: Result<seq<Grade>, Thrown>)
      ensures r.Err? <==> forall g :: g in db.grades ==> g.subjectId != subjectId
      ensures r.Err? ==> r.error == Raise(NotFound, "No grades found for this subject.")
      ensures r.Ok? ==> |r.value| > 0 && forall g :: g in r.value <==> g in db.grades && g.subjectId == subjectId
    {
      var grades := GradeRepository.GetAllForSubject(db.grades, subjectId);
      if |grades| == 0 {
        return Err(Raise(NotFound, "No grades found for this subject."));
      }
      assert grades[0] in grades;
      return Ok(grades);
    }

    /** create: hands the insert to the repository with no check of the subject, and answers whatever it
      * yields, also nothing. */
    method Create(subjectId: Id, grade: string, gradeType: string, date: Date, newId: Id) returns (r: Option<Grade>)
      requires db.Valid()
      modifies db`grades
      ensures db.Valid()
      ensures r.Some? <==> forall g :: g in old(db.grades) ==> g.id != newId
      ensures r.Some? ==> r.value == Grade(newId, subjectId, grade, gradeType, date)
      ensures r.Some? ==> db.grades == old(db.grades) + [r.value]
      ensures r.None? ==> db.grades == old(db.grades)
    {
      r := GradeRepository.Create(db, newId, subjectId, grade, gradeType, date);
    }

    /** update: NotFound for an absent id; otherwise sets grade, type and date and answers the updated record. */
    method Update(id: Id, grade: string, gradeType: string, date: Date) returns (r: Result<Option<Grade>, Thrown>)
      requires db.Valid()
      modifies db`grades
      ensures db.Valid()
      ensures match GradeRepository.GetById(old(db.grades), id)
              case None =>
                r == Err(Raise(NotFound, "Grade not found.")) && db.grades == old(db.grades)
              case Some(g) =>
                r == Ok(Some(Grade(id, g.subjectId, grade, gradeType, date))) &&
                db.grades == Table.Update(old(db.grades), GradeIdIs(id), RegradeGrade(grade, gradeType, date))
    {
      var existingGrade := GradeRepository.GetById(db.grades, id);
      if existingGrade.None? {
        return Err(Raise(NotFound, "Grade not found."));
      }
      var updatedGrade := GradeRepository.Update(db, id, grade, gradeType, date);
      return Ok(updatedGrade);
    }

    /** delete: NotFound for an absent id; otherwise removes the grade and answers the deleted record. */
    method Delete(id: Id) returns (r: Result<Option<Grade>, Thrown>)
      requires db.Valid()
      modifies db`grades
      ensures db.Valid()
      ensures (forall g :: g in old(db.grades) ==> g.id != id) <==> r.Err?
      ensures r.Err? ==> r.error == Raise(NotFound, "Grade not found.") && db.grades == old(db.grades)
      ensures r.Ok? ==> r.value.Some? && r.value.value in old(db.grades) && r.value.value.id == id
      ensures r.Ok? ==> db.grades == Filter(old(db.grades), GradeIdIsNot(id))
    {
      var existingGrade := GradeRepository.GetById(db.grades, id);
      if existingGrade.None? {
        return Err(Raise(NotFound, "Grade not found."));
      }
      var deletedGrade := GradeRepository.Delete(db, id);
      return Ok(deletedGrade);
    }
  }
}
