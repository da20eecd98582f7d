/**
 * The database behind the ORM client: four tables, each a sequence of rows in table order.
 * Ids are generated by the database; username and email are unique columns of the user table.
 */
module Store {
  import opened Table

  type Id = string

  /** A date as the client passes it; never inspected. */
  type Date = string

  datatype User = User(id: Id, name: string, email: string, username: string, password: string)
  datatype Semester = Semester(id: Id, semester: string, userId: Id)
  datatype Subject = Subject(id: Id, name: string, semesterId: Id)
  datatype Grade = Grade(id: Id, subjectId: Id, grade: string, gradeType: string, date: Date)

  // Keys of the rows, as function values for Table's predicates.
  function UserId(u: User): Id { u.id }
  function UserUsername(u: User): string { u.username }
  function UserEmail(u: User): string { u.email }
  function SemesterId(s: Semester): Id { s.id }
  function SubjectId(s: Subject): Id { s.id }
  function GradeId(g: Grade): Id { g.id }

  /** A semester's name together with its owner: unique per user when the services keep their invariant. */
  function SemesterNameKey(s: Semester): (Id, string) { (s.userId, s.semester) }

  /** A subject's name together with its semester: unique per semester when the services keep their invariant. */
  function SubjectNameKey(s: Subject): (Id, string) { (s.semesterId, s.name) }

  /** The invariant the semester service keeps on create: no user has two semesters of the same name. */
  ghost predicate SemesterNamesUnique(semesters: seq<Semester>) {
    UniqueKeys(semesters, SemesterNameKey)
  }

  /** The invariant the subject service keeps: no semester has two subjects of the same name. */
  ghost predicate SubjectNamesUnique(subjects: seq<Subject>) {
    UniqueKeys(subjects, SubjectNameKey)
  }

  // Where clauses, as named functions so that the same clause is the same value wherever it is written.
  function UserIdIsNot(id: Id): User -> bool { (u: User) => u.id != id }
  function SemesterIs(id: Id, userId: Id): Semester -> bool { (s: Semester) => s.id == id && s.userId == userId }
  function SemesterIsNot(id: Id, userId: Id): Semester -> bool { (s: Semester) => !(s.id == id && s.userId == userId) }
  function SubjectIdIs(id: Id): Subject -> bool { (s: Subject) => s.id == id }
  function SubjectIdIsNot(id: Id): Subject -> bool { (s: Subject) => s.id != id }
  function GradeIdIs(id: Id): Grade -> bool { (g: Grade) => g.id == id }
  function GradeIdIsNot(id: Id): Grade -> bool { (g: Grade) => g.id != id }

  // Data clauses of the updates.
  function RenameSemester(semester: string): Semester -> Semester { (s: Semester) => s.(semester := semester) }
  function RenameSubject(name: string): Subject -> Subject { (s: Subject) => s.(name := name) }
  function RegradeGrade(grade: string, gradeType: string, date: Date): Grade -> Grade {
    (g: Grade) => g.(grade := grade, gradeType := gradeType, date := date)
  }

  /** The state of the database client. */
  class Database {
    var users: seq<User>
    var semesters: seq<Semester>
    var subjects: seq<Subject>
    var grades: seq<Grade>

    /** The constraints the database enforces: primary keys, and the unique username and email columns. */
    ghost predicate Valid()
      reads this
    {
      && UniqueKeys(users, UserId) && UniqueKeys(users, UserUsername) && UniqueKeys(users, UserEmail)
      && UniqueKeys(semesters, SemesterId)
      && UniqueKeys(subjects, SubjectId)
      && UniqueKeys(grades, GradeId)
    }

    /** An empty database. */
    constructor ()
      ensures Valid()
      ensures users == [] && semesters == [] && subjects == [] && grades == []
    {
      users, semesters, subjects, grades := [], [], [], [];
    }
  }
}
