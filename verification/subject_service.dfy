/** Listing, fetching, creating, renaming and deleting the subjects of a semester. */
module SubjectService {
  import opened Wrappers
  import opened Errors
  import opened Store
  import opened Table
  import SubjectRepository
  import LegacySubjectRepository

  class SubjectService {
    const db: Database

    constructor (db: Database)
      ensures this.db == db
    {
      this.db := db;
    }

    /** getAllForSemester: the semester's subjects, or NotFound when it has none. */
    method GetAllForSemester(semesterId: Id) returns (r: Result<seq<Subject>, Thrown>)
      ensures r.Err? <==> forall s :: s in db.subjects ==> s.semesterId != semesterId
      ensures r.Err? ==> r.error == Raise(NotFound, "No subjects found for this semester.")
      ensures r.Ok? ==> |r.value| > 0 && forall s :: s in r.value <==> s in db.subjects && s.semesterId == semesterId
    {
      var subjects := SubjectRepository.GetAllForSemester(db.subjects, semesterId);
      if |subjects| == 0 {
        return Err(Raise(NotFound, "No subjects found for this semester."));
      }
      assert subjects[0] in subjects;
      return Ok(subjects);
    }

    /** getUniqueByIdWithGrades as written: the spread join is never null, so the NotFound check never fires and
      * an absent subject yields a record holding only `grades`. */
    method GetUniqueByIdWithGrades(id: Id) returns (r: Result<SubjectRepository.SpreadSubject, Thrown>)
      ensures r.Ok?
      ensures r.value.columns.None? <==> forall s :: s in db.subjects ==> s.id != id
      ensures r.value.columns.Some? ==> r.value.columns.value in db.subjects && r.value.columns.value.id == id
      ensures forall g :: g in r.value.grades <==> g in db.grades && g.subjectId == id
    {
      var subject := SubjectRepository.GetUniqueWithGrades(db.subjects, db.grades, id);
      return Ok(subject);
    }

    /** getUniqueByIdWithGrades as intended: a join that is null for an absent subject, so that the service
      * answers NotFound for it. */
    method GetUniqueByIdWithGradesChecked(id: Id) returns (r: Result<LegacySubjectRepository.SubjectWithGrades, Thrown>)
      ensures r.Err? <==> forall s :: s in db.subjects ==> s.id != id
      ensures r.Err? ==> r.error == Raise(NotFound, "Subject not found.")
      ensures r.Ok? ==> r.value.subject in db.subjects && r.value.subject.id == id
      ensures r.Ok? ==> forall g :: g in r.value.grades <==> g in db.grades && g.subjectId == id
    {
      var subject := LegacySubjectRepository.GetUniqueWithGrades(db.subjects, db.grades, id);
      if subject.None? {
        return Err(Raise(NotFound, "Subject not found."));
      }
      return Ok(subject.value);
    }

    /** create: Conflict when the semester already has a subject of that name; ServerError when the insert
      * yields nothing; otherwise the new subject. Keeps subject names unique per semester. */
    method Create(name: string, semesterId: Id, newId: Id) returns (r: Result<Subject, Thrown>)
      requires db.Valid()
      modifies db`subjects
      ensures db.Valid()
      ensures SubjectNamesUnique(old(db.subjects)) ==> SubjectNamesUnique(db.subjects)
      ensures var nameTaken := exists s :: s in old(db.subjects) && s.semesterId == semesterId && s.name == name;
              var idTaken := exists s :: s in old(db.subjects) && s.id == newId;
              && (nameTaken ==> r == Err(Raise(Conflict, "Subject with this name already exists for this semester.")))
              && (!nameTaken && idTaken ==> r == Err(Raise(Server, "Failed to create subject.")))
              && (!nameTaken && !idTaken ==> r == Ok(Subject(newId, name, semesterId)))
      ensures r.Ok? ==> db.subjects == old(db.subjects) + [r.value]
      ensures r.Err? ==> db.subjects == old(db.subjects)
    {
      var checkSubject := SubjectRepository.GetUniqueByName(db.subjects, name, semesterId);
      if checkSubject.Some? {
        return Err(Raise(Conflict, "Subject with this name already exists for this semester."));
      }
      if SubjectNamesUnique(db.subjects) {
        AppendKeepsUniqueKeys(db.subjects, Subject(newId, name, semesterId), SubjectNameKey);
      }
      var newSubject := SubjectRepository.Create(db, newId, name, semesterId);
      if newSubject.None? {
        return Err(Raise(Server, "Failed to create subject."));
      }
      return Ok(newSubject.value);
    }

    /** update: NotFound for an absent id; Conflict when another subject of the same semester already has the
      * name; otherwise renames the subject. Keeps subject names unique per semester. */
    method Update(id: Id, name: string) returns (r: Result<Subject, Thrown>)
      requires db.Valid()
      modifies db`subjects
      ensures db.Valid()
      ensures SubjectNamesUnique(old(db.subjects)) ==> SubjectNamesUnique(db.subjects)
      ensures match SubjectRepository.GetUnique(old(db.subjects), id)
              case None =>
                r == Err(Raise(NotFound, "Subject not found.")) && db.subjects == old(db.subjects)
              case Some(s) =>
                var clash := SubjectRepository.GetUniqueByName(old(db.subjects), name, s.semesterId);
                if clash.Some? && clash.value.id != id then
                  r == Err(Raise(Conflict, "Subject with this name already exists in this semester.")) &&
                  db.subjects == old(db.subjects)
                else
                  r == Ok(s.(name := name)) &&
                  db.subjects == Table.Update(old(db.subjects), SubjectIdIs(id), RenameSubject(name))
    {
      var checkSubject := SubjectRepository.GetUnique(db.subjects, id);
      if checkSubject.None? {
        return Err(Raise(NotFound, "Subject not found."));
      }
      var checkName := SubjectRepository.GetUniqueByName(db.subjects, name, checkSubject.value.semesterId);
      if checkName.Some? && checkName.value.id != id {
        return Err(Raise(Conflict, "Subject with this name already exists in this semester."));
      }
      if SubjectNamesUnique(db.subjects) {
        NoClashKeepsNamesUnique(db.subjects, checkSubject.value, name);
      }
      var updatedSubject := SubjectRepository.Update(db, id, name);
      if updatedSubject.None? {
        return Err(Raise(Server, "Subject not found or failed to update."));
      }
      return Ok(updatedSubject.value);
    }

    /** delete: NotFound for an absent id; otherwise removes the subject and answers the record as it was.
      * Keeps subject names unique per semester. */
    method Delete(id: Id) returns (r: Result<Subject, Thrown>)
      requires db.Valid()
      modifies db`subjects
      ensures db.Valid()
      ensures SubjectNamesUnique(old(db.subjects)) ==> SubjectNamesUnique(db.subjects)
      ensures (forall s :: s in old(db.subjects) ==> s.id != id) <==> r.Err?
      ensures r.Err? ==> r.error == Raise(NotFound, "Subject not found.") && db.subjects == old(db.subjects)
      ensures r.Ok? ==> r.value in old(db.subjects) && r.value.id == id
      ensures r.Ok? ==> db.subjects == Filter(old(db.subjects), SubjectIdIsNot(id))
    {
      var toDelete := SubjectRepository.GetUnique(db.subjects, id);
      if toDelete.None? {
        return Err(Raise(NotFound, "Subject not found."));
      }
      if SubjectNamesUnique(db.subjects) {
        FilterKeepsUniqueKeys(db.subjects, SubjectIdIsNot(id), SubjectNameKey);
      }
      var deletedSubject := SubjectRepository.Delete(db, id);
      if deletedSubject.None? {
        return Err(Raise(Server, "Failed to delete subject."));
      }
      return Ok(toDelete.value);
    }
  }

  /** Renaming subject `s` keeps names unique when no other subject of its semester has the new name, which is
    * what update's lookup establishes when it finds no clash. */
  lemma NoClashKeepsNamesUnique(subjects: seq<Subject>, s: Subject, name: string)
    requires UniqueKeys(subjects, SubjectId) && SubjectNamesUnique(subjects)
    requires s in subjects
    requires var clash := SubjectRepository.GetUniqueByName(subjects, name, s.semesterId);
             !(clash.Some? && clash.value.id != s.id)
    ensures SubjectNamesUnique(Table.Update(subjects, SubjectIdIs(s.id), RenameSubject(name)))
  {
    var clash := SubjectRepository.GetUniqueByName(subjects, name, s.semesterId);
    var after := Table.Update(subjects, SubjectIdIs(s.id), RenameSubject(name));
    // every subject of that semester with the new name is s itself
    forall t | t in subjects && SubjectNameKey(t) == (s.semesterId, name) ensures t.id == s.id {
      SameKeySameRow(subjects, SubjectNameKey, t, clash.value);
    }
    forall i, j | 0 <= i < j < |after| ensures SubjectNameKey(after[i]) != SubjectNameKey(after[j]) {
      var renamedI := subjects[i].id == s.id;
      var renamedJ := subjects[j].id == s.id;
      assert SubjectId(subjects[i]) != SubjectId(subjects[j]);
      if renamedI {
        SameKeySameRow(subjects, SubjectId, subjects[i], s);
        assert subjects[j] in subjects;
      } else if renamedJ {
        SameKeySameRow(subjects, SubjectId, subjects[j], s);
        assert subjects[i] in subjects;
      } else {
        assert SubjectNameKey(subjects[i]) != SubjectNameKey(subjects[j]);
      }
    }
  }

  /** Renaming a subject to its own name never conflicts when names are unique per semester. */
  lemma OwnNameNeverClashes(subjects: seq<Subject>, s: Subject)
    requires SubjectNamesUnique(subjects) && s in subjects
    ensures SubjectRepository.GetUniqueByName(subjects, s.name, s.semesterId) == Some(s)
  {
    var clash := SubjectRepository.GetUniqueByName(subjects, s.name, s.semesterId);
    SameKeySameRow(subjects, SubjectNameKey, s, clash.value);
  }
}
