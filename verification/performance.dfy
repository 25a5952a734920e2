/** Performance records: upsert by studentId, lookup, and the student's own views. */
module Performance {
  import opened Wrappers
  import opened JsValues
  import opened Seqs
  import opened Domain
  import Students

  /** The body of POST /api/teacher/performance; `None` is a key the body lacks. */
  datatype PerformanceInput = PerformanceInput(
    studentId: Option<JsValue>,
    term1: Option<JsValue>,
    term2: Option<JsValue>,
    term3: Option<JsValue>,
    periodicTests: Option<JsValue>,
    feedback: Option<JsValue>)

  /** The `find` test `r.studentId === studentId`. */
  function StudentIdIs(v: JsValue): PerformanceRecord -> bool {
    (r: PerformanceRecord) => StrictEq(r.studentId, v)
  }

  /** At most one record per studentId. */
  predicate UniqueStudents(recs: seq<PerformanceRecord>) {
    forall i, j :: 0 <= i < j < |recs| ==> !StrictEq(recs[i].studentId, recs[j].studentId)
  }

  predicate NoRecordFor(recs: seq<PerformanceRecord>, v: JsValue) {
    forall j :: 0 <= j < |recs| ==> !StrictEq(recs[j].studentId, v)
  }

  /** `if (v !== undefined) field = v`. */
  function Overlay(current: Option<JsValue>, supplied: Option<JsValue>): Option<JsValue> {
    if supplied.Some? then supplied else current
  }

  function Merge(rec: PerformanceRecord, input: PerformanceInput): PerformanceRecord {
    PerformanceRecord(
      rec.studentId,
      Overlay(rec.term1, input.term1),
      Overlay(rec.term2, input.term2),
      Overlay(rec.term3, input.term3),
      Overlay(rec.periodicTests, input.periodicTests),
      Overlay(rec.feedback, input.feedback))
  }

  /** The record created for a studentId nobody has yet. */
  function Fresh(input: PerformanceInput): PerformanceRecord
    requires input.studentId.Some?
  {
    PerformanceRecord(input.studentId.value, input.term1, input.term2, input.term3,
                      input.periodicTests, input.feedback)
  }

  /** POST /api/teacher/performance. */
  function Upsert(recs: seq<PerformanceRecord>, input: PerformanceInput): (r: Reply<seq<PerformanceRecord>>)
    ensures !Given(input.studentId) ==> r == Reply(recs, Response(400, Message(MissingStudentId)))
    ensures Given(input.studentId) && NoRecordFor(recs, input.studentId.value) ==>
      && |r.next| == |recs| + 1
      && r.next[..|recs|] == recs
      && r.next[|recs|].studentId == input.studentId.value
      && r.next[|recs|].term1 == input.term1
      && r.next[|recs|].term2 == input.term2
      && r.next[|recs|].term3 == input.term3
      && r.next[|recs|].periodicTests == input.periodicTests
      && r.next[|recs|].feedback == input.feedback
      && r.resp == Response(200, PerformanceBody(r.next[|recs|]))
    ensures Given(input.studentId) ==>
      forall k :: IsFirst(recs, StudentIdIs(input.studentId.value), k) ==>
        && |r.next| == |recs|
        && (forall j :: 0 <= j < |recs| && j != k ==> r.next[j] == recs[j])
        && r.next[k].studentId == recs[k].studentId
        && r.next[k].term1 == (if input.term1.Some? then input.term1 else recs[k].term1)
        && r.next[k].term2 == (if input.term2.Some? then input.term2 else recs[k].term2)
        && r.next[k].term3 == (if input.term3.Some? then input.term3 else recs[k].term3)
        && r.next[k].periodicTests == (if input.periodicTests.Some? then input.periodicTests else recs[k].periodicTests)
        && r.next[k].feedback == (if input.feedback.Some? then input.feedback else recs[k].feedback)
        && r.resp == Response(200, PerformanceBody(r.next[k]))
    ensures UniqueStudents(recs) ==> UniqueStudents(r.next)
  {
    if !Given(input.studentId) then Reply(recs, Response(400, Message(MissingStudentId)))
    else
      var k := FindIndex(recs, StudentIdIs(input.studentId.value));
      if k == -1 then
        var rec := Fresh(input);
        Reply(recs + [rec], Response(200, PerformanceBody(rec)))
      else
        var rec := Merge(recs[k], input);
        Reply(recs[k := rec], Response(200, PerformanceBody(rec)))
  }

  /** GET /api/teacher/performance/:studentId. */
  function Get(recs: seq<PerformanceRecord>, studentId: int): (resp: Response)
    ensures resp.status == 404 <==> forall j :: 0 <= j < |recs| ==> recs[j].studentId != JNum(studentId)
    ensures resp.status == 404 ==> resp.body == Message(PerformanceNotFound)
    ensures forall k :: IsFirst(recs, StudentIdIs(JNum(studentId)), k) ==>
      resp == Response(200, PerformanceBody(recs[k]))
  {
    var k := FindIndex(recs, StudentIdIs(JNum(studentId)));
    if k == -1 then Response(404, Message(PerformanceNotFound))
    else Response(200, PerformanceBody(recs[k]))
  }

  /** GET /api/student/academic-records: the principal's own student record,
      with their performance record or `{}`. */
  function AcademicRecords(students: seq<Student>, recs: seq<PerformanceRecord>, userId: int): (resp: Response)
    ensures resp.status == 404 <==> !Students.HasId(students, userId)
    ensures resp.status == 404 ==> resp.body == Message(StudentNotFound)
    ensures forall k :: IsFirst(students, Students.IdIs(userId), k) ==>
      && resp.status == 200
      && resp.body.AcademicRecord?
      && resp.body.student == students[k]
      && (resp.body.performance.None? <==>
            forall j :: 0 <= j < |recs| ==> recs[j].studentId != JNum(userId))
      && forall i :: IsFirst(recs, StudentIdIs(JNum(userId)), i) ==>
           resp.body.performance == Some(recs[i])
  {
    var k := FindIndex(students, Students.IdIs(userId));
    if k == -1 then Response(404, Message(StudentNotFound))
    else
      var i := FindIndex(recs, StudentIdIs(JNum(students[k].id)));
      var performance := if i == -1 then None else Some(recs[i]);
      Response(200, AcademicRecord(students[k], performance))
  }

  /** GET /api/student/feedback: the stored feedback, or `[]` when there is
      no record or its feedback is falsy. */
  function Feedback(recs: seq<PerformanceRecord>, userId: int): (resp: Response)
    ensures resp.status == 200 && resp.body.FeedbackBody?
    ensures (forall j :: 0 <= j < |recs| ==> recs[j].studentId != JNum(userId)) ==>
      resp.body.feedback == JArr([])
    ensures forall k :: IsFirst(recs, StudentIdIs(JNum(userId)), k) ==>
      resp.body.feedback == if Given(recs[k].feedback) then recs[k].feedback.value else JArr([])
  {
    var k := FindIndex(recs, StudentIdIs(JNum(userId)));
    if k == -1 || !Given(recs[k].feedback) then Response(200, FeedbackBody(JArr([])))
    else Response(200, FeedbackBody(recs[k].feedback.value))
  }

  /** After an upsert with a numeric studentId, the lookup by that id finds a
      record holding every field the body supplied. */
  lemma UpsertThenGet(recs: seq<PerformanceRecord>, input: PerformanceInput, n: int)
    requires input.studentId == Some(JNum(n)) && n != 0
    ensures Get(Upsert(recs, input).next, n).status == 200
    ensures forall rec :: Get(Upsert(recs, input).next, n).body == PerformanceBody(rec) ==>
      && rec.studentId == JNum(n)
      && (input.term1.Some? ==> rec.term1 == input.term1)
      && (input.term2.Some? ==> rec.term2 == input.term2)
      && (input.term3.Some? ==> rec.term3 == input.term3)
      && (input.periodicTests.Some? ==> rec.periodicTests == input.periodicTests)
      && (input.feedback.Some? ==> rec.feedback == input.feedback)
  {
    var next := Upsert(recs, input).next;
    var k := FindIndex(recs, StudentIdIs(JNum(n)));
    var at := if k == -1 then |recs| else k;
    assert IsFirst(next, StudentIdIs(JNum(n)), at);
    FirstIsUnique(next, StudentIdIs(JNum(n)), FindIndex(next, StudentIdIs(JNum(n))), at);
  }

  /** Sending the same performance body twice has the effect of sending it
      once, for a studentId `===` can match (not an array or object). */
  lemma UpsertIdempotent(recs: seq<PerformanceRecord>, input: PerformanceInput)
    requires input.studentId.Some? ==> Primitive(input.studentId.value)
    ensures Upsert(Upsert(recs, input).next, input) == Upsert(recs, input)
  {
    if Given(input.studentId) {
      var p := StudentIdIs(input.studentId.value);
      var once := Upsert(recs, input).next;
      var k := FindIndex(recs, p);
      var at := if k == -1 then |recs| else k;
      assert IsFirst(once, p, at);
      FirstIsUnique(once, p, FindIndex(once, p), at);
      assert Merge(once[at], input) == once[at];
      assert once[at := once[at]] == once;
    }
  }
}
