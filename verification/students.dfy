/** The admin student routes and the teacher's class roster. */
module Students {
  import opened Wrappers
  import opened JsValues
  import opened Seqs
  import opened Domain

  /** The `name`, `class` and `subjects` fields of a create or update body. */
  datatype StudentInput = StudentInput(name: Option<JsValue>, cls: Option<JsValue>, subjects: Option<JsValue>)

  /** Ids strictly ascending in array order, as in the seed data. */
  predicate Ascending(s: seq<Student>) {
    forall i, j :: 0 <= i < j < |s| ==> s[i].id < s[j].id
  }

  function IdIs(id: int): Student -> bool {
    (x: Student) => x.id == id
  }

  predicate HasId(s: seq<Student>, id: int) {
    exists i :: 0 <= i < |s| && s[i].id == id
  }

  /** The id a new student gets: the last element's id plus one, or 1. */
  function NextId(s: seq<Student>): int {
    if |s| > 0 then s[|s| - 1].id + 1 else 1
  }

  /** Under the ascending invariant the next id exceeds every id in use. */
  lemma NextIdFresh(s: seq<Student>)
    requires Ascending(s)
    ensures forall i :: 0 <= i < |s| ==> s[i].id < NextId(s)
  {
    forall i | 0 <= i < |s|
      ensures s[i].id < NextId(s)
    {
      if i < |s| - 1 {
        assert s[i].id < s[|s| - 1].id;
      }
    }
  }

  function MaxId(s: seq<Student>): int
    requires |s| > 0
  {
    if |s| == 1 then s[0].id
    else
      var m := MaxId(s[1..]);
      if s[0].id < m then m else s[0].id
  }

  /** With ascending ids "last id + 1" is "largest id + 1". */
  lemma {:induction false} NextIdIsMaxPlusOne(s: seq<Student>)
    requires Ascending(s) && |s| > 0
    ensures NextId(s) == MaxId(s) + 1
  {
    if |s| > 1 {
      assert Ascending(s[1..]);
      NextIdIsMaxPlusOne(s[1..]);
      assert s[0].id < s[|s| - 1].id;
    }
  }

  /** The `!name || !className || !studentSubjects` check passes. */
  predicate Complete(input: StudentInput) {
    Given(input.name) && Given(input.cls) && Given(input.subjects)
  }

  /** POST /api/admin/students. */
  function Create(s: seq<Student>, input: StudentInput): (r: Reply<seq<Student>>)
    ensures !Complete(input) ==> r == Reply(s, Response(400, Message(MissingFields)))
    ensures Complete(input) ==>
      && |r.next| == |s| + 1
      && r.next[..|s|] == s
      && r.next[|s|].id == (if |s| == 0 then 1 else s[|s| - 1].id + 1)
      && r.next[|s|].name == input.name.value
      && r.next[|s|].cls == input.cls.value
      && r.next[|s|].subjects == input.subjects.value
      && r.resp == Response(201, StudentBody(r.next[|s|]))
    ensures Ascending(s) ==> Ascending(r.next)
    ensures Ascending(s) && Complete(input) ==> !HasId(s, r.next[|s|].id)
  {
    if !Complete(input) then Reply(s, Response(400, Message(MissingFields)))
    else
      var student := Student(NextId(s), input.name.value, input.cls.value, input.subjects.value);
      NextIdFreshForCreate(s);
      Reply(s + [student], Response(201, StudentBody(student)))
  }

  /** Appending a student with the next id keeps the ids ascending. */
  lemma NextIdFreshForCreate(s: seq<Student>)
    ensures Ascending(s) ==> !HasId(s, NextId(s))
    ensures Ascending(s) ==> forall x: Student :: x.id == NextId(s) ==> Ascending(s + [x])
  {
    if Ascending(s) {
      NextIdFresh(s);
    }
  }

  /** A student after `if (name) student.name = name` and the like. */
  function Patch(x: Student, input: StudentInput): Student {
    Student(
      x.id,
      if Given(input.name) then input.name.value else x.name,
      if Given(input.cls) then input.cls.value else x.cls,
      if Given(input.subjects) then input.subjects.value else x.subjects)
  }

  /** PUT /api/admin/students/:id. */
  function Update(s: seq<Student>, id: int, input: StudentInput): (r: Reply<seq<Student>>)
    ensures r.resp.status == 404 <==> !HasId(s, id)
    ensures !HasId(s, id) ==> r == Reply(s, Response(404, Message(StudentNotFound)))
    ensures forall k :: IsFirst(s, IdIs(id), k) ==>
      && |r.next| == |s|
      && r.next[k].id == id
      && r.next[k].name == (if Given(input.name) then input.name.value else s[k].name)
      && r.next[k].cls == (if Given(input.cls) then input.cls.value else s[k].cls)
      && r.next[k].subjects == (if Given(input.subjects) then input.subjects.value else s[k].subjects)
      && (forall j :: 0 <= j < |s| && j != k ==> r.next[j] == s[j])
      && r.resp == Response(200, StudentBody(r.next[k]))
    ensures Ascending(s) ==> Ascending(r.next)
  {
    var k := FindIndex(s, IdIs(id));
    if k == -1 then Reply(s, Response(404, Message(StudentNotFound)))
    else
      var updated := Patch(s[k], input);
      Reply(s[k := updated], Response(200, StudentBody(updated)))
  }

  /** DELETE /api/admin/students/:id. */
  function Delete(s: seq<Student>, id: int): (r: Reply<seq<Student>>)
    ensures r.resp.status == 404 <==> !HasId(s, id)
    ensures !HasId(s, id) ==> r == Reply(s, Response(404, Message(StudentNotFound)))
    ensures forall k :: IsFirst(s, IdIs(id), k) ==>
      r.next == s[..k] + s[k + 1..] && r.resp == Response(204, NoContent)
    ensures Ascending(s) ==> Ascending(r.next) && !HasId(r.next, id)
  {
    var k := FindIndex(s, IdIs(id));
    if k == -1 then Reply(s, Response(404, Message(StudentNotFound)))
    else
      var r := Reply(RemoveAt(s, k), Response(204, NoContent));
      assert r.next == s[..k] + s[k + 1..];
      r
  }

  /** GET /api/teacher/students/:classId: students whose `class` is that string.
      They keep store order, by `Seqs.FilterAppend`. */
  function InClass(s: seq<Student>, classId: string): (r: seq<Student>)
    ensures forall x :: x in r <==> x in s && x.cls == JStr(classId)
    ensures forall x :: multiset(r)[x] == if x.cls == JStr(classId) then multiset(s)[x] else 0
  {
    Filter(s, (x: Student) => StrictEq(x.cls, JStr(classId)))
  }

  /** Creating a student and deleting the id it was given restores the list,
      so the id is handed out again by the next create. */
  lemma CreateThenDelete(s: seq<Student>, input: StudentInput)
    requires Ascending(s) && Complete(input)
    ensures Delete(Create(s, input).next, NextId(s)) == Reply(s, Response(204, NoContent))
  {
    var c := Create(s, input).next;
    NextIdFresh(s);
    var k := |s|;
    assert IsFirst(c, IdIs(NextId(s)), k);
    FirstIsUnique(c, IdIs(NextId(s)), FindIndex(c, IdIs(NextId(s))), k);
    assert c[..k] + c[k + 1..] == s;
  }

  /** Applying the same update twice has the effect of applying it once. */
  lemma UpdateIdempotent(s: seq<Student>, id: int, input: StudentInput)
    ensures Update(Update(s, id, input).next, id, input) == Update(s, id, input)
  {
    var k := FindIndex(s, IdIs(id));
    if k != -1 {
      var once := Update(s, id, input).next;
      assert IsFirst(once, IdIs(id), k);
      FirstIsUnique(once, IdIs(id), FindIndex(once, IdIs(id)), k);
      assert Patch(once[k], input) == once[k];
      assert once[k := once[k]] == once;
    }
  }

  /** An update that supplies no truthy field leaves the list unchanged. */
  lemma UpdateWithNothingGiven(s: seq<Student>, id: int, input: StudentInput)
    requires !Given(input.name) && !Given(input.cls) && !Given(input.subjects)
    ensures Update(s, id, input).next == s
  {
    var k := FindIndex(s, IdIs(id));
    if k != -1 {
      assert Patch(s[k], input) == s[k];
    }
  }
}
