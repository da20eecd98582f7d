/** Listing, fetching, creating, renaming and deleting a user's semesters. */
module SemesterService {
  import opened Wrappers
  import opened Errors
  import opened Store
  import opened Table
  import SemesterRepository

  /** A search term is given and is not empty. */
  predicate Searching(search: Option<string>) {
    search.Some? && search.value != ""
  }

  /** The semesters getAllForUser lists: the user's own, narrowed to names containing the search term. */
  ghost predicate Listed(semesters: seq<Semester>, userId: Id, search: Option<string>, s: Semester) {
    s in semesters && s.userId == userId && (Searching(search) ==> SemesterRepository.IsSubstring(search.value, s.semester))
  }

  class SemesterService {
    const db: Database

    constructor (db: Database)
      ensures this.db == db
    {
      this.db := db;
    }

    /** getAllForUser: the user's semesters, narrowed to names containing `search` when a non-empty search term
      * is given; NotFound, worded after the branch taken, when there is none. */
    method GetAllForUser(userId: Id, search: Option<string>) returns (r: Result<seq<Semester>, Thrown>)
      ensures r.Ok? ==> |r.value| > 0 && forall s :: s in r.value <==> Listed(db.semesters, userId, search, s)
      ensures r.Err? <==> forall s :: !Listed(db.semesters, userId, search, s)
      ensures r.Err? && Searching(search) ==>
                r.error == Raise(NotFound, "No semesters found for this user or this search term.")
      ensures r.Err? && !Searching(search) ==> r.error == Raise(NotFound, "No semesters found for this user.")
    {
      if Searching(search) {
        var semesters := SemesterRepository.GetManyBySearch(db.semesters, search.value, userId);
        if |semesters| == 0 {
          return Err(Raise(NotFound, "No semesters found for this user or this search term."));
        }
        assert semesters[0] in semesters;
        return Ok(semesters);
      } else {
        var semesters := SemesterRepository.GetManyForUser(db.semesters, userId);
        if |semesters| == 0 {
          return Err(Raise(NotFound, "No semesters found for this user."));
        }
        assert semesters[0] in semesters;
        return Ok(semesters);
      }
    }

    /** getUniqueByIdWithSubjects: the semester with its subjects, or NotFound when the join yields nothing or
      * at most one key. */
    method GetUniqueByIdWithSubjects(id: Id) returns (r: Result<SemesterRepository.SemesterWithSubjects, Thrown>)
      ensures r.Err? <==> forall s :: s in db.semesters ==> s.id != id
      ensures r.Err? ==> r.error == Raise(NotFound, "Semester not found.")
      ensures r.Ok? ==> r.value.semester in db.semesters && r.value.semester.id == id
      ensures r.Ok? ==> forall x :: x in r.value.subjects <==> x in db.subjects && x.semesterId == id
    {
      var semester := SemesterRepository.GetUniqueWithSubjects(db.semesters, db.subjects, id);
      if semester.None? || semester.value.KeyCount() <= 1 {
        return Err(Raise(NotFound, "Semester not found."));
      }
      return Ok(semester.value);
    }

    /** create: Conflict when the user already has a semester of that name; ServerError when the insert yields
      * nothing; otherwise the new semester. Keeps semester names unique per user. */
    method Create(userId: Id, semester: string, newId: Id) returns (r: Result<Semester, Thrown>)
      requires db.Valid()
      modifies db`semesters
      ensures db.Valid()
      ensures SemesterNamesUnique(old(db.semesters)) ==> SemesterNamesUnique(db.semesters)
      ensures var nameTaken := exists s :: s in old(db.semesters) && s.userId == userId && s.semester == semester;
              var idTaken := exists s :: s in old(db.semesters) && s.id == newId;
              && (nameTaken ==> r == Err(Raise(Conflict, "Semester already exists for this user.")))
              && (!nameTaken && idTaken ==> r == Err(Raise(Server, "Failed to create semester.")))
              && (!nameTaken && !idTaken ==> r == Ok(Semester(newId, semester, userId)))
      ensures r.Ok? ==> db.semesters == old(db.semesters) + [r.value]
      ensures r.Err? ==> db.semesters == old(db.semesters)
    {
      var checkSemester := SemesterRepository.GetUniqueByName(db.semesters, semester, userId);
      if checkSemester.Some? {
        return Err(Raise(Conflict, "Semester already exists for this user."));
      }
      if SemesterNamesUnique(db.semesters) {
        AppendKeepsUniqueKeys(db.semesters, Semester(newId, semester, userId), SemesterNameKey);
      }
      var newSemester := SemesterRepository.Create(db, newId, userId, semester);
      if newSemester.None? {
        return Err(Raise(Server, "Failed to create semester."));
      }
      return Ok(newSemester.value);
    }

    /** update: NotFound for an absent id; ServerError when the semester belongs to another user; otherwise
      * renames it, with no check of the name against the user's other semesters. */
    method Update(id: Id, userId: Id, semester: string) returns (r: Result<Semester, Thrown>)
      requires db.Valid()
      modifies db`semesters
      ensures db.Valid()
      ensures match SemesterRepository.GetUnique(old(db.semesters), id)
              case None =>
                r == Err(Raise(NotFound, "Semester not found.")) && db.semesters == old(db.semesters)
              case Some(s) =>
                if s.userId != userId then
                  r == Err(Raise(Server, "Failed to update semester.")) && db.semesters == old(db.semesters)
                else
                  r == Ok(s.(semester := semester)) &&
                  db.semesters == Table.Update(old(db.semesters), SemesterIs(id, userId), RenameSemester(semester))
    {
      var checkSemester := SemesterRepository.GetUnique(db.semesters, id);
      if checkSemester.None? {
        return Err(Raise(NotFound, "Semester not found."));
      }
      OwnedLookupAgrees(db.semesters, id, userId);
      var updatedSemester := SemesterRepository.Update(db, id, userId, semester);
      if updatedSemester.None? {
        return Err(Raise(Server, "Failed to update semester."));
      }
      return Ok(updatedSemester.value);
    }

    /** delete: NotFound for an absent id; ServerError when the semester belongs to another user; otherwise
      * removes it and answers the record as it was. Keeps semester names unique per user. */
    method Delete(id: Id, userId: Id) returns (r: Result<Semester, Thrown>)
      requires db.Valid()
      modifies db`semesters
      ensures db.Valid()
      ensures SemesterNamesUnique(old(db.semesters)) ==> SemesterNamesUnique(db.semesters)
      ensures match SemesterRepository.GetUnique(old(db.semesters), id)
              case None =>
                r == Err(Raise(NotFound, "Semester not found.")) && db.semesters == old(db.semesters)
              case Some(s) =>
                if s.userId != userId then
                  r == Err(Raise(Server, "Failed to delete semester.")) && db.semesters == old(db.semesters)
                else
                  r == Ok(s) && db.semesters == Filter(old(db.semesters), SemesterIsNot(id, userId))
    {
      var toDelete := SemesterRepository.GetUnique(db.semesters, id);
      if toDelete.None? {
        return Err(Raise(NotFound, "Semester not found."));
      }
      OwnedLookupAgrees(db.semesters, id, userId);
      if SemesterNamesUnique(db.semesters) {
        FilterKeepsUniqueKeys(db.semesters, SemesterIsNot(id, userId), SemesterNameKey);
      }
      var deletedSemester := SemesterRepository.Delete(db, id, userId);
      if deletedSemester.None? {
        return Err(Raise(Server, "Failed to delete semester."));
      }
      return Ok(toDelete.value);
    }
  }

  /** With unique ids, the row matching both id and owner is the row with that id, when its owner matches. */
  lemma OwnedLookupAgrees(semesters: seq<Semester>, id: Id, userId: Id)
    requires UniqueKeys(semesters, SemesterId)
    requires SemesterRepository.GetUnique(semesters, id).Some?
    ensures var s := SemesterRepository.GetUnique(semesters, id).value;
            FindFirst(semesters, SemesterIs(id, userId)) == if s.userId == userId then Some(s) else None
  {
    var s := SemesterRepository.GetUnique(semesters, id).value;
    var owned := FindFirst(semesters, SemesterIs(id, userId));
    if owned.Some? {
      SameKeySameRow(semesters, SemesterId, s, owned.value);
    }
  }

  /** Renaming a semester does not keep semester names unique per user: renaming the second of a user's two
    * semesters to the name of the first leaves the user with two semesters of that name. */
  lemma UpdateCanDuplicateSemesterNames(userId: Id, first: string, second: string)
    requires first != second
    ensures var before := [Semester("a", first, userId), Semester("b", second, userId)];
            var after := Table.Update(before, SemesterIs("b", userId), RenameSemester(first));
            SemesterNamesUnique(before) && !SemesterNamesUnique(after)
  {
    var before := [Semester("a", first, userId), Semester("b", second, userId)];
    var after := Table.Update(before, SemesterIs("b", userId), RenameSemester(first));
    assert after[0] == before[0];
    assert after[1] == Semester("b", first, userId);
    assert SemesterNameKey(after[0]) == SemesterNameKey(after[1]);
  }
}
