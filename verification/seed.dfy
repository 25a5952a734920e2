/** The demo data the server starts with, and example scenarios over it. */
module Seed {
  import opened Wrappers
  import opened JsValues
  import opened Domain
  import opened Server
  import Students
  import Performance

  const SeedUsers: seq<User> := [
    User(1, "admin1", "adminpass", "admin"),
    User(2, "teacher1", "teacherpass", "teacher"),
    User(3, "student1", "studentpass", "student")
  ]

  const BothSubjects := JArr([JStr("Mathematics"), JStr("Science")])

  const SeedStudents: seq<Student> := [
    Student(1, JStr("Student A"), JStr("Class 1"), BothSubjects),
    Student(2, JStr("Student B"), JStr("Class 1"), BothSubjects)
  ]

  const SeedTeachers: seq<Teacher> := [Teacher(1, "Teacher One", ["Class 1"])]

  function Initial(): Store {
    Store(SeedUsers, SeedStudents, SeedTeachers, [], [])
  }

  const NewStudent := Students.StudentInput(Some(JStr("X")), Some(JStr("Class 1")), Some(JArr([JStr("Mathematics")])))

  lemma InitialIsValid()
    ensures Valid(Initial())
  {
  }

  /** An admin creating a student in the seeded store gets id 3, and the
      student list then has three entries. */
  lemma CreateOnSeedGetsIdThree()
    ensures Handle(Initial(), Some("admin1"), Call(CreateStudent(NewStudent))).resp
         == Response(201, StudentBody(Student(3, JStr("X"), JStr("Class 1"), JArr([JStr("Mathematics")]))))
    ensures |Handle(Initial(), Some("admin1"), Call(CreateStudent(NewStudent))).next.students| == 3
  {
  }

  /** Deleting the highest id and creating again hands out the same id. */
  lemma DeletedIdIsReused()
    ensures
      var created := Handle(Initial(), Some("admin1"), Call(CreateStudent(NewStudent))).next;
      var deleted := Handle(created, Some("admin1"), Call(DeleteStudent(3))).next;
      Handle(deleted, Some("admin1"), Call(CreateStudent(NewStudent))).resp.body.student.id == 3
  {
    Students.CreateThenDelete(SeedStudents, NewStudent);
    var created := Handle(Initial(), Some("admin1"), Call(CreateStudent(NewStudent))).next;
    assert created == Initial().(students := Students.Create(SeedStudents, NewStudent).next);
    assert Handle(created, Some("admin1"), Call(DeleteStudent(3))).next == Initial();
  }

  /** teacher1 has user id 2 but the only teacher has id 1, so its class
      list is not found. */
  lemma TeacherOneHasNoClasses()
    ensures Handle(Initial(), Some("teacher1"), Call(TeacherClasses)).resp
         == Response(404, Message(TeacherNotFound))
  {
  }

  /** student1 has user id 3 and no seeded student has that id. */
  lemma StudentOneHasNoRecords()
    ensures Handle(Initial(), Some("student1"), Call(AcademicRecords)).resp
         == Response(404, Message(StudentNotFound))
  {
  }

  /** No header, an empty header, an unknown name or the wrong role: 403. */
  lemma GateRejects()
    ensures Handle(Initial(), None, Call(ListStudents)).resp.status == 403
    ensures Handle(Initial(), Some(""), Call(ListStudents)).resp.status == 403
    ensures Handle(Initial(), Some("nobody"), Call(ListStudents)).resp.status == 403
    ensures Handle(Initial(), Some("teacher1"), Call(ListStudents)).resp.status == 403
    ensures Handle(Initial(), Some("admin1"), Call(ListStudents)).resp.status == 200
  {
  }

  /** A present-but-zero term overwrites; the other fields stay. */
  lemma ZeroTermOverwrites()
    ensures
      var first := Performance.PerformanceInput(Some(JNum(1)), Some(JNum(90)), None, None, None, Some(JStr("good")));
      var second := Performance.PerformanceInput(Some(JNum(1)), Some(JNum(0)), None, None, None, None);
      var recs := Performance.Upsert(Performance.Upsert([], first).next, second).next;
      recs == [PerformanceRecord(JNum(1), Some(JNum(0)), None, None, None, Some(JStr("good")))]
  {
  }

  /** A studentId sent as the string "3" is never found by the numeric lookup. */
  lemma StringStudentIdIsNotFound()
    ensures
      var input := Performance.PerformanceInput(Some(JStr("3")), Some(JNum(80)), None, None, None, None);
      Performance.Get(Performance.Upsert([], input).next, 3).status == 404
  {
  }
}
