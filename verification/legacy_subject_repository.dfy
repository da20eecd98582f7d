/** The older subject repository. Its queries, `update` and `delete` are the same ORM calls as in
  * SubjectRepository; it differs in `createNew` and in a join that attaches the grades to the fetched
  * record and answers null when there is no record to attach them to. */
module LegacySubjectRepository {
  import opened Wrappers
  import opened Store
  import SubjectRepository
  import GradeRepository

  /** A fetched subject with its `grades` attached. */
  datatype SubjectWithGrades = SubjectWithGrades(subject: Subject, grades: seq<Grade>)

  /** getUniqueWithGrades: the subject with all its grades, or nothing when the subject is absent. */
  function GetUniqueWithGrades(subjects: seq<Subject>, grades: seq<Grade>, id: Id): (r: Option<SubjectWithGrades>)
    ensures r.None? <==> forall s :: s in subjects ==> s.id != id
    ensures r.Some? ==> r.value.subject in subjects && r.value.subject.id == id
    ensures r.Some? ==> forall g :: g in r.value.grades <==> g in grades && g.subjectId == id
  {
    match SubjectRepository.GetUnique(subjects, id)
    case None => None
    case Some(s) => Some(SubjectWithGrades(s, GradeRepository.GetAllForSubject(grades, id)))
  }

  /** createNew: the same insertion as SubjectRepository's `create`. */
  method CreateNew(db: Database, id: Id, name: string, semesterId: Id) returns (r: Option<Subject>)
    requires db.Valid()
    modifies db`subjects
    ensures db.Valid()
    ensures r.Some? <==> forall s :: s in old(db.subjects) ==> s.id != id
    ensures r.Some? ==> r.value == Subject(id, name, semesterId) && db.subjects == old(db.subjects) + [r.value]
    ensures r.None? ==> db.subjects == old(db.subjects)
  {
    r := SubjectRepository.Create(db, id, name, semesterId);
  }

  /** The two joins agree on a present subject; on an absent one the spread still yields a record with no
    * subject columns, where this one yields nothing. */
  lemma JoinsAgreeExceptOnAbsentSubject(subjects: seq<Subject>, grades: seq<Grade>, id: Id)
    ensures var legacy := GetUniqueWithGrades(subjects, grades, id);
            var spread := SubjectRepository.GetUniqueWithGrades(subjects, grades, id);
            match legacy
            case Some(sg) => spread == SubjectRepository.SpreadSubject(Some(sg.subject), sg.grades)
            case None => spread.columns.None? && spread.KeyCount() == 1
  {
  }
}
