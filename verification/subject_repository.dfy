/** The subject table: the subjects of a semester, lookups, the join with grades built by spreading, insertion,
  * renaming and deletion. */
module SubjectRepository {
  import opened Wrappers
  import opened Table
  import opened Store
  import GradeRepository

  /** getAllForSemester: the subjects of that semester, in table order; possibly none. */
  function GetAllForSemester(subjects: seq<Subject>, semesterId: Id): (r: seq<Subject>)
    ensures forall s :: s in r <==> s in subjects && s.semesterId == semesterId
  {
    Filter(subjects, (s: Subject) => s.semesterId == semesterId)
  }

  /** getUnique: the subject with that id, if any. */
  function GetUnique(subjects: seq<Subject>, id: Id): (r: Option<Subject>)
    ensures r.Some? ==> r.value in subjects && r.value.id == id
    ensures r.None? <==> forall s :: s in subjects ==> s.id != id
  {
    FindFirst(subjects, SubjectIdIs(id))
  }

  /** getUniqueByName: the first subject of that semester with that name, if any. */
  function GetUniqueByName(subjects: seq<Subject>, name: string, semesterId: Id): (r: Option<Subject>)
    ensures r.Some? ==> r.value in subjects && r.value.name == name && r.value.semesterId == semesterId
    ensures r.None? <==> forall s :: s in subjects ==> SubjectNameKey(s) != (semesterId, name)
  {
    FindFirst(subjects, (s: Subject) => s.name == name && s.semesterId == semesterId)
  }

  /** The object `{...subject, grades}`: the subject's columns, present only when the subject was found,
    * and the grades. Spreading null contributes no keys. */
  datatype SpreadSubject = SpreadSubject(columns: Option<Subject>, grades: seq<Grade>)
  {
    /** Number of keys: the three subject columns modelled when present, and `grades`. */
    function KeyCount(): (n: nat)
      ensures n >= 1 && (n == 1 <==> columns.None?)
    {
      if columns.Some? then 4 else 1
    }
  }

  /** getUniqueWithGrades: always a record, also for an absent subject, holding all grades of that id. */
  function GetUniqueWithGrades(subjects: seq<Subject>, grades: seq<Grade>, id: Id): (r: SpreadSubject)
    ensures r.columns.None? <==> forall s :: s in subjects ==> s.id != id
    ensures r.columns.Some? ==> r.columns.value in subjects && r.columns.value.id == id
    ensures forall g :: g in r.grades <==> g in grades && g.subjectId == id
  {
    SpreadSubject(GetUnique(subjects, id), GradeRepository.GetAllForSubject(grades, id))
  }

  /** create: inserts the subject, unless the database refuses it because the id is taken. */
  method Create(db: Database, id: Id, name: string, semesterId: Id) returns (r: Option<Subject>)
    requires db.Valid()
    modifies db`subjects
    ensures db.Valid()
    ensures r.Some? <==> forall s :: s in old(db.subjects) ==> s.id != id
    ensures r.Some? ==> r.value == Subject(id, name, semesterId) && db.subjects == old(db.subjects) + [r.value]
    ensures r.None? ==> db.subjects == old(db.subjects)
  {
    if GetUnique(db.subjects, id).None? {
      var s := Subject(id, name, semesterId);
      AppendKeepsUniqueKeys(db.subjects, s, SubjectId);
      db.subjects := db.subjects + [s];
      r := Some(s);
    } else {
      r := None;
    }
  }

  /** update: renames the subject with that id; every other column and row stays. */
  method Update(db: Database, id: Id, name: string) returns (r: Option<Subject>)
    requires db.Valid()
    modifies db`subjects
    ensures db.Valid()
    ensures r.None? <==> GetUnique(old(db.subjects), id).None?
    ensures r.Some? ==> r.value == GetUnique(old(db.subjects), id).value.(name := name)
    ensures r.Some? ==> db.subjects == Table.Update(old(db.subjects), SubjectIdIs(id), RenameSubject(name))
    ensures r.None? ==> db.subjects == old(db.subjects)
  {
    var found := GetUnique(db.subjects, id);
    if found.Some? {
      UpdateKeepsUniqueKeys(db.subjects, SubjectIdIs(id), RenameSubject(name), SubjectId);
      db.subjects := Table.Update(db.subjects, SubjectIdIs(id), RenameSubject(name));
      r := Some(found.value.(name := name));
    } else {
      r := None;
    }
  }

  /** delete: removes the subject with that id and returns it; nothing to delete is a failure. */
  method Delete(db: Database, id: Id) returns (r: Option<Subject>)
    requires db.Valid()
    modifies db`subjects
    ensures db.Valid()
    ensures r == GetUnique(old(db.subjects), id)
    ensures r.Some? ==> db.subjects == Filter(old(db.subjects), SubjectIdIsNot(id))
    ensures r.None? ==> db.subjects == old(db.subjects)
  {
    r := GetUnique(db.subjects, id);
    if r.Some? {
      FilterKeepsUniqueKeys(db.subjects, SubjectIdIsNot(id), SubjectId);
      db.subjects := Filter(db.subjects, SubjectIdIsNot(id));
    }
  }

  /** Deleting a subject just created, by its id, gives back the table as it was. */
  lemma DeleteUndoesCreate(subjects: seq<Subject>, s: Subject)
    requires forall t :: t in subjects ==> t.id != s.id
    ensures Filter(subjects + [s], SubjectIdIsNot(s.id)) == subjects
  {
    DeleteUndoesInsert(subjects, s, SubjectIdIsNot(s.id));
  }

  /** After a rename, looking the subject up by id finds it with the new name in its old semester. */
  lemma RenamedSubjectIsFound(subjects: seq<Subject>, id: Id, name: string)
    requires UniqueKeys(subjects, SubjectId)
    requires GetUnique(subjects, id).Some?
    ensures var s := GetUnique(subjects, id).value;
            GetUnique(Table.Update(subjects, SubjectIdIs(id), RenameSubject(name)), id) == Some(Subject(id, name, s.semesterId))
  {
    var s := GetUnique(subjects, id).value;
    var after := Table.Update(subjects, SubjectIdIs(id), RenameSubject(name));
    var i :| 0 <= i < |subjects| && subjects[i] == s;
    assert after[i].id == id;
    var h := GetUnique(after, id).value;
    var k :| 0 <= k < |after| && after[k] == h;
    assert subjects[k].id == id;
    SameKeySameRow(subjects, SubjectId, subjects[k], s);
  }
}
