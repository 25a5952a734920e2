/** Recording attendance (replace on conflict) and the two attendance queries. */
module Attendance {
  import opened Wrappers
  import opened JsValues
  import opened Seqs
  import opened Domain

  /** The body of POST /api/teacher/attendance. */
  datatype AttendanceInput = AttendanceInput(
    studentId: Option<JsValue>,
    classId: Option<JsValue>,
    date: Option<JsValue>,
    status: Option<JsValue>)

  predicate Complete(input: AttendanceInput) {
    Given(input.studentId) && Given(input.classId) && Given(input.date) && Given(input.status)
  }

  /** The `findIndex` test: same student, class and date under `===`. */
  function KeyIs(studentId: JsValue, classId: JsValue, date: JsValue): AttendanceRecord -> bool {
    (r: AttendanceRecord) =>
      StrictEq(r.studentId, studentId) && StrictEq(r.classId, classId) && StrictEq(r.date, date)
  }

  function KeyIsNot(studentId: JsValue, classId: JsValue, date: JsValue): AttendanceRecord -> bool {
    (r: AttendanceRecord) => !KeyIs(studentId, classId, date)(r)
  }

  predicate SameKey(a: AttendanceRecord, b: AttendanceRecord) {
    KeyIs(b.studentId, b.classId, b.date)(a)
  }

  /** At most one record per (studentId, classId, date). */
  predicate UniqueKeys(recs: seq<AttendanceRecord>) {
    forall i, j :: 0 <= i < j < |recs| ==> !SameKey(recs[i], recs[j])
  }

  predicate PrimitiveKey(r: AttendanceRecord) {
    Primitive(r.studentId) && Primitive(r.classId) && Primitive(r.date)
  }

  /** The record a complete request stores. */
  function Submitted(input: AttendanceInput): AttendanceRecord
    requires Complete(input)
  {
    AttendanceRecord(input.studentId.value, input.classId.value, input.date.value, input.status.value)
  }

  /** Records with the key of `r`. */
  function WithKeyOf(recs: seq<AttendanceRecord>, r: AttendanceRecord): seq<AttendanceRecord> {
    Filter(recs, KeyIs(r.studentId, r.classId, r.date))
  }

  /** Records with any other key. */
  function WithoutKeyOf(recs: seq<AttendanceRecord>, r: AttendanceRecord): seq<AttendanceRecord> {
    Filter(recs, KeyIsNot(r.studentId, r.classId, r.date))
  }

  /** Under unique keys, a record with the key of `recs[k]` sits only at `k`. */
  lemma OnlyOneWithKey(recs: seq<AttendanceRecord>, k: int, p: AttendanceRecord -> bool, r: AttendanceRecord)
    requires UniqueKeys(recs) && 0 <= k < |recs|
    requires p == KeyIs(r.studentId, r.classId, r.date) && p(recs[k])
    ensures forall j :: 0 <= j < |recs| && j != k ==> !p(recs[j])
  {
    forall j | 0 <= j < |recs| && j != k
      ensures !p(recs[j])
    {
      if p(recs[j]) {
        if j < k {
          assert SameKey(recs[j], recs[k]);
        } else {
          assert SameKey(recs[k], recs[j]);
        }
      }
    }
  }

  /** Appending a record whose key nothing in `kept` has keeps keys unique. */
  lemma AppendKeepsUnique(kept: seq<AttendanceRecord>, r: AttendanceRecord)
    requires UniqueKeys(kept)
    requires forall j :: 0 <= j < |kept| ==> !KeyIs(r.studentId, r.classId, r.date)(kept[j])
    ensures UniqueKeys(kept + [r])
  {
    var s := kept + [r];
    forall i, j | 0 <= i < j < |s|
      ensures !SameKey(s[i], s[j])
    {
      if j == |kept| {
        assert s[i] == kept[i];
      } else {
        assert s[i] == kept[i] && s[j] == kept[j];
      }
    }
  }

  /** POST /api/teacher/attendance. */
  function Record(recs: seq<AttendanceRecord>, input: AttendanceInput): (r: Reply<seq<AttendanceRecord>>)
    ensures !Complete(input) ==> r == Reply(recs, Response(400, Message(MissingFields)))
    ensures Complete(input) ==>
      && r.resp == Response(201, Message(AttendanceRecorded))
      && |r.next| > 0
      && r.next[|r.next| - 1] == Submitted(input)
    ensures Complete(input) && !PrimitiveKey(Submitted(input)) ==> r.next == recs + [Submitted(input)]
    ensures UniqueKeys(recs) ==> UniqueKeys(r.next)
  {
    if !Complete(input) then Reply(recs, Response(400, Message(MissingFields)))
    else
      var rec := Submitted(input);
      var p := KeyIs(rec.studentId, rec.classId, rec.date);
      var k := FindIndex(recs, p);
      var kept := if k == -1 then recs else RemoveAt(recs, k);
      RecordKeepsUnique(recs, rec, k, kept);
      Reply(kept + [rec], Response(201, Message(AttendanceRecorded)))
  }

  lemma RecordKeepsUnique(recs: seq<AttendanceRecord>, rec: AttendanceRecord, k: int, kept: seq<AttendanceRecord>)
    requires k == FindIndex(recs, KeyIs(rec.studentId, rec.classId, rec.date))
    requires kept == if k == -1 then recs else RemoveAt(recs, k)
    ensures UniqueKeys(recs) ==> UniqueKeys(kept + [rec])
  {
    if UniqueKeys(recs) {
      var p := KeyIs(rec.studentId, rec.classId, rec.date);
      if k != -1 {
        OnlyOneWithKey(recs, k, p, rec);
        forall i, j | 0 <= i < j < |kept|
          ensures !SameKey(kept[i], kept[j])
        {
          var i', j' := if i < k then i else i + 1, if j < k then j else j + 1;
          assert kept[i] == recs[i'] && kept[j] == recs[j'];
        }
        forall j | 0 <= j < |kept|
          ensures !p(kept[j])
        {
          assert kept[j] == recs[if j < k then j else j + 1];
        }
      }
      AppendKeepsUnique(kept, rec);
    }
  }

  /** What survives the `splice`: no record with the submitted key, and
      every record with another key. */
  lemma KeptRecords(recs: seq<AttendanceRecord>, rec: AttendanceRecord, k: int, kept: seq<AttendanceRecord>)
    requires UniqueKeys(recs)
    requires k == FindIndex(recs, KeyIs(rec.studentId, rec.classId, rec.date))
    requires kept == if k == -1 then recs else RemoveAt(recs, k)
    ensures forall j :: 0 <= j < |kept| ==> !KeyIs(rec.studentId, rec.classId, rec.date)(kept[j])
    ensures WithoutKeyOf(kept, rec) == WithoutKeyOf(recs, rec)
  {
    var p := KeyIs(rec.studentId, rec.classId, rec.date);
    if k != -1 {
      OnlyOneWithKey(recs, k, p, rec);
      forall j | 0 <= j < |kept|
        ensures !p(kept[j])
      {
        assert kept[j] == recs[if j < k then j else j + 1];
      }
      FilterRemoveAt(recs, k, KeyIsNot(rec.studentId, rec.classId, rec.date));
    }
  }

  /** Appending a record with a primitive key nobody else has. */
  lemma AppendFresh(kept: seq<AttendanceRecord>, rec: AttendanceRecord)
    requires PrimitiveKey(rec)
    requires forall j :: 0 <= j < |kept| ==> !KeyIs(rec.studentId, rec.classId, rec.date)(kept[j])
    ensures WithKeyOf(kept + [rec], rec) == [rec]
    ensures WithoutKeyOf(kept + [rec], rec) == WithoutKeyOf(kept, rec)
  {
    var p := KeyIs(rec.studentId, rec.classId, rec.date);
    var q := KeyIsNot(rec.studentId, rec.classId, rec.date);
    FilterAppend(kept, [rec], p);
    FilterAppend(kept, [rec], q);
    assert [rec][1..] == [];
    FilterNone(kept, p);
  }

  /** Replace on conflict: afterwards the submitted key has exactly one
      record, the new one, and the records with other keys are the same
      records in the same order. */
  lemma RecordReplaces(recs: seq<AttendanceRecord>, input: AttendanceInput)
    requires UniqueKeys(recs) && Complete(input) && PrimitiveKey(Submitted(input))
    ensures WithKeyOf(Record(recs, input).next, Submitted(input)) == [Submitted(input)]
    ensures WithoutKeyOf(Record(recs, input).next, Submitted(input)) == WithoutKeyOf(recs, Submitted(input))
  {
    var rec := Submitted(input);
    var k := FindIndex(recs, KeyIs(rec.studentId, rec.classId, rec.date));
    var kept := if k == -1 then recs else RemoveAt(recs, k);
    assert Record(recs, input).next == kept + [rec];
    KeptRecords(recs, rec, k, kept);
    AppendFresh(kept, rec);
  }

  /** Recording the same key twice leaves one record, with the later status. */
  lemma RecordTwiceKeepsLatest(recs: seq<AttendanceRecord>, first: AttendanceInput, second: AttendanceInput)
    requires UniqueKeys(recs) && Complete(first) && Complete(second)
    requires SameKey(Submitted(first), Submitted(second))
    ensures WithKeyOf(Record(Record(recs, first).next, second).next, Submitted(first)) == [Submitted(second)]
  {
    var mid := Record(recs, first).next;
    RecordReplaces(mid, second);
    assert KeyIs(Submitted(first).studentId, Submitted(first).classId, Submitted(first).date)
        == KeyIs(Submitted(second).studentId, Submitted(second).classId, Submitted(second).date);
  }

  /** GET /api/teacher/attendance-report/:classId: the records of that class,
      in store order by `Seqs.FilterAppend`. */
  function ForClass(recs: seq<AttendanceRecord>, classId: string): (r: seq<AttendanceRecord>)
    ensures forall x :: x in r <==> x in recs && x.classId == JStr(classId)
    ensures forall x :: multiset(r)[x] == if x.classId == JStr(classId) then multiset(recs)[x] else 0
  {
    Filter(recs, (x: AttendanceRecord) => StrictEq(x.classId, JStr(classId)))
  }

  /** GET /api/student/attendance: the records whose studentId is the principal's id,
      in store order by `Seqs.FilterAppend`. */
  function ForStudent(recs: seq<AttendanceRecord>, userId: int): (r: seq<AttendanceRecord>)
    ensures forall x :: x in r <==> x in recs && x.studentId == JNum(userId)
    ensures forall x :: multiset(r)[x] == if x.studentId == JNum(userId) then multiset(recs)[x] else 0
  {
    Filter(recs, (x: AttendanceRecord) => StrictEq(x.studentId, JNum(userId)))
  }
}
