/**
 * The student list shown in the popup: the entries of the `students` array
 * whose enrollment status is "Active", each projected to an id and a
 * display name, in their original order.
 */
module Students {
  import opened Api

  /** One choice of the student selector: `{ id, name }`. */
  datatype StudentOption = StudentOption(id: string, name: string)

  predicate IsActive(e: StudentEntry) {
    e.student.enrollmentStatus == "Active"
  }

  /** The projection of one entry: its object id and "first last". */
  function Project(e: StudentEntry): StudentOption {
    StudentOption(e.student.objectId, e.student.firstName + " " + e.student.lastName)
  }

  /** `students.filter(active).map(project)`. Every option is the projection of an Active entry. */
  function ActiveStudents(entries: seq<StudentEntry>): (r: seq<StudentOption>)
    ensures |r| <= |entries|
    ensures forall k :: 0 <= k < |r| ==>
      exists i :: 0 <= i < |entries| && IsActive(entries[i]) && r[k] == Project(entries[i])
  {
    if entries == [] then []
    else if IsActive(entries[0]) then [Project(entries[0])] + ActiveStudents(entries[1..])
    else ActiveStudents(entries[1..])
  }

  /** Filtering distributes over concatenation: the order of the input is kept. */
  lemma {:induction false} ActiveStudentsAppend(a: seq<StudentEntry>, b: seq<StudentEntry>)
    ensures ActiveStudents(a + b) == ActiveStudents(a) + ActiveStudents(b)
  {
    if a == [] {
      assert a + b == b;
    } else {
      assert (a + b)[0] == a[0];
      assert (a + b)[1..] == a[1..] + b;
      ActiveStudentsAppend(a[1..], b);
    }
  }

  /** Every Active entry appears, at the position given by the number of Active entries before it. */
  lemma ActiveStudentsPosition(entries: seq<StudentEntry>, i: nat)
    requires i < |entries| && IsActive(entries[i])
    ensures |ActiveStudents(entries[..i])| < |ActiveStudents(entries)|
    ensures ActiveStudents(entries)[|ActiveStudents(entries[..i])|] == Project(entries[i])
  {
    assert entries == entries[..i] + ([entries[i]] + entries[i + 1..]);
    ActiveStudentsAppend(entries[..i], [entries[i]] + entries[i + 1..]);
    assert ([entries[i]] + entries[i + 1..])[1..] == entries[i + 1..];
  }

  /** The list is empty exactly when no entry is Active. */
  lemma {:induction false} ActiveStudentsEmpty(entries: seq<StudentEntry>)
    ensures ActiveStudents(entries) == [] <==> forall i :: 0 <= i < |entries| ==> !IsActive(entries[i])
  {
    if entries != [] {
      ActiveStudentsEmpty(entries[1..]);
      assert forall i :: 1 <= i < |entries| ==> entries[i] == entries[1..][i - 1];
    }
  }

  /** The first option is the projection of the first Active entry. */
  lemma {:induction false} FirstActiveStudent(entries: seq<StudentEntry>, i: nat)
    requires i < |entries| && IsActive(entries[i])
    requires forall j :: 0 <= j < i ==> !IsActive(entries[j])
    ensures ActiveStudents(entries) != []
    ensures ActiveStudents(entries)[0] == Project(entries[i])
  {
    if i > 0 {
      assert forall j :: 0 <= j < i - 1 ==> entries[1..][j] == entries[j + 1];
      FirstActiveStudent(entries[1..], i - 1);
    }
  }
}
