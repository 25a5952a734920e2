/** GET /api/teacher/classes. */
module Teachers {
  import opened Seqs
  import opened Domain

  function TeacherIdIs(id: int): Teacher -> bool {
    (t: Teacher) => t.id == id
  }

  /** The classes of the teacher whose id equals the principal's user id;
      404 when no teacher has that id. */
  function AssignedClasses(teachers: seq<Teacher>, userId: int): (resp: Response)
    ensures resp.status == 404 <==> forall j :: 0 <= j < |teachers| ==> teachers[j].id != userId
    ensures resp.status == 404 ==> resp.body == Message(TeacherNotFound)
    ensures forall k :: IsFirst(teachers, TeacherIdIs(userId), k) ==>
      resp == Response(200, ClassIdList(teachers[k].assignedClasses))
  {
    var k := FindIndex(teachers, TeacherIdIs(userId));
    if k == -1 then Response(404, Message(TeacherNotFound))
    else Response(200, ClassIdList(teachers[k].assignedClasses))
  }
}
