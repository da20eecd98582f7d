/** The semester table: substring search and listing per owner, lookups, the join with subjects, insertion,
  * renaming and deletion restricted to the owner. */
module SemesterRepository {
  import opened Wrappers
  import opened Table
  import opened Store
  import SubjectRepository

  /** `needle` occurs in `hay` starting at position `i`. */
  predicate OccursAt(needle: string, hay: string, i: int)
  {
    0 <= i && i + |needle| <= |hay| && forall k :: 0 <= k < |needle| ==> hay[i + k] == needle[k]
  }

  /** `needle` occurs in `hay` at some position. */
  ghost predicate IsSubstring(needle: string, hay: string)
  {
    exists i :: OccursAt(needle, hay, i)
  }

  /** The `contains` filter: tries each start position of `hay` in turn. */
  function Contains(hay: string, needle: string): (b: bool)
    ensures b <==> IsSubstring(needle, hay)
    decreases |hay|
  {
    if needle <= hay then
      assert OccursAt(needle, hay, 0);
      true
    else if |hay| == 0 then
      false
    else
      SubstringOfTail(needle, hay);
      Contains(hay[1..], needle)
  }

  /** When `needle` is not a prefix of `hay`, it occurs in `hay` exactly when it occurs in `hay[1..]`. */
  lemma SubstringOfTail(needle: string, hay: string)
    requires |hay| > 0 && !(needle <= hay)
    ensures IsSubstring(needle, hay) <==> IsSubstring(needle, hay[1..])
  {
    if IsSubstring(needle, hay) {
      var i :| OccursAt(needle, hay, i);
      assert i != 0;
      assert OccursAt(needle, hay[1..], i - 1);
    }
    if IsSubstring(needle, hay[1..]) {
      var j :| OccursAt(needle, hay[1..], j);
      assert OccursAt(needle, hay, j + 1);
    }
  }

  /** getManyBySearch: exactly the owner's semesters whose name contains the search term, in table order. */
  function GetManyBySearch(semesters: seq<Semester>, search: string, userId: Id): (r: seq<Semester>)
    ensures forall s :: s in r <==> s in semesters && s.userId == userId && IsSubstring(search, s.semester)
  {
    Filter(semesters, (s: Semester) => Contains(s.semester, search) && s.userId == userId)
  }

  /** getManyForUser: exactly the owner's semesters, in table order. */
  function GetManyForUser(semesters: seq<Semester>, userId: Id): (r: seq<Semester>)
    ensures forall s :: s in r <==> s in semesters && s.userId == userId
  {
    Filter(semesters, (s: Semester) => s.userId == userId)
  }

  /** getUnique: the semester with that id, if any. */
  function GetUnique(semesters: seq<Semester>, id: Id): (r: Option<Semester>)
    ensures r.Some? ==> r.value in semesters && r.value.id == id
    ensures r.None? <==> forall s :: s in semesters ==> s.id != id
  {
    FindFirst(semesters, (s: Semester) => s.id == id)
  }

  /** getUniqueByName: the first of the owner's semesters with that name, if any. */
  function GetUniqueByName(semesters: seq<Semester>, semester: string, userId: Id): (r: Option<Semester>)
    ensures r.Some? ==> r.value in semesters && r.value.semester == semester && r.value.userId == userId
    ensures r.None? <==> forall s :: s in semesters ==> SemesterNameKey(s) != (userId, semester)
  {
    FindFirst(semesters, (s: Semester) => s.semester == semester && s.userId == userId)
  }

  /** A fetched semester with its `subjects` attached. */
  datatype SemesterWithSubjects = SemesterWithSubjects(semester: Semester, subjects: seq<Subject>)
  {
    /** Number of keys, a constant: the three semester columns modelled, and `subjects`. */
    function KeyCount(): (n: nat)
      ensures n > 1
    {
      4
    }
  }

  /** getUniqueWithSubjects: the semester with all its subjects, or nothing when the semester is absent. */
  function GetUniqueWithSubjects(semesters: seq<Semester>, subjects: seq<Subject>, id: Id)
    : (r: Option<SemesterWithSubjects>)
    ensures r.None? <==> forall s :: s in semesters ==> s.id != id
    ensures r.Some? ==> r.value.semester in semesters && r.value.semester.id == id
    ensures r.Some? ==> forall x :: x in r.value.subjects <==> x in subjects && x.semesterId == id
  {
    match GetUnique(semesters, id)
    case None => None
    case Some(s) => Some(SemesterWithSubjects(s, SubjectRepository.GetAllForSemester(subjects, id)))
  }

  /** create: inserts the semester, unless the database refuses it because the id is taken. */
  method Create(db: Database, id: Id, userId: Id, semester: string) returns (r: Option<Semester>)
    requires db.Valid()
    modifies db`semesters
    ensures db.Valid()
    ensures r.Some? <==> forall s :: s in old(db.semesters) ==> s.id != id
    ensures r.Some? ==> r.value == Semester(id, semester, userId) && db.semesters == old(db.semesters) + [r.value]
    ensures r.None? ==> db.semesters == old(db.semesters)
  {
    if GetUnique(db.semesters, id).None? {
      var s := Semester(id, semester, userId);
      AppendKeepsUniqueKeys(db.semesters, s, SemesterId);
      db.semesters := db.semesters + [s];
      r := Some(s);
    } else {
      r := None;
    }
  }

  /** update: renames the semester matching both id and owner; no match is a failure. */
  method Update(db: Database, id: Id, userId: Id, semester: string) returns (r: Option<Semester>)
    requires db.Valid()
    modifies db`semesters
    ensures db.Valid()
    ensures r.None? <==> forall s :: s in old(db.semesters) ==> !(s.id == id && s.userId == userId)
    ensures r.Some? ==> r.value.id == id && r.value.userId == userId && r.value.semester == semester
    ensures r.Some? ==> r.value == FindFirst(old(db.semesters), SemesterIs(id, userId)).value.(semester := semester)
    ensures r.Some? ==> db.semesters == Table.Update(old(db.semesters), SemesterIs(id, userId), RenameSemester(semester))
    ensures r.None? ==> db.semesters == old(db.semesters)
  {
    var found := FindFirst(db.semesters, SemesterIs(id, userId));
    if found.Some? {
      UpdateKeepsUniqueKeys(db.semesters, SemesterIs(id, userId), RenameSemester(semester), SemesterId);
      db.semesters := Table.Update(db.semesters, SemesterIs(id, userId), RenameSemester(semester));
      r := Some(found.value.(semester := semester));
    } else {
      r := None;
    }
  }

  /** delete: removes the semester matching both id and owner and returns it; no match is a failure. */
  method Delete(db: Database, id: Id, userId: Id) returns (r: Option<Semester>)
    requires db.Valid()
    modifies db`semesters
    ensures db.Valid()
    ensures r.None? <==> forall s :: s in old(db.semesters) ==> !(s.id == id && s.userId == userId)
    ensures r.Some? ==> r.value in old(db.semesters) && r.value.id == id && r.value.userId == userId
    ensures r.Some? ==> db.semesters == Filter(old(db.semesters), SemesterIsNot(id, userId))
    ensures r.None? ==> db.semesters == old(db.semesters)
  {
    r := FindFirst(db.semesters, SemesterIs(id, userId));
    if r.Some? {
      FilterKeepsUniqueKeys(db.semesters, SemesterIsNot(id, userId), SemesterId);
      db.semesters := Filter(db.semesters, SemesterIsNot(id, userId));
    }
  }

  /** Deleting a semester just created, by its id and owner, gives back the table as it was. */
  lemma DeleteUndoesCreate(semesters: seq<Semester>, s: Semester)
    requires forall t :: t in semesters ==> t.id != s.id
    ensures Filter(semesters + [s], SemesterIsNot(s.id, s.userId)) == semesters
  {
    DeleteUndoesInsert(semesters, s, SemesterIsNot(s.id, s.userId));
  }
}
