/** The record store behind the ORM: the Course and Student tables, the
    non-null foreign key from Student to Course with its reverse relation
    `students`, and cascading deletion. */
module RecordStore {
  import opened Wrappers
  import opened Models
  import opened Predicates

  datatype Db = Db(courses: seq<Course>, students: seq<Student>)

  function CourseId(c: Course): nat { c.id }
  function StudentId(s: Student): nat { s.id }

  /** No two records of `s` share an id (the primary key). */
  predicate DistinctIds<T>(idOf: T -> nat, s: seq<T>) {
    forall i, j :: 0 <= i < j < |s| ==> idOf(s[i]) != idOf(s[j])
  }

  predicate HasCourse(courses: seq<Course>, id: nat) {
    FindCourse(courses, id).Some?
  }

  /** Both primary keys are unique and every student's foreign key names an
      existing course. */
  predicate WellFormed(db: Db) {
    && DistinctIds(CourseId, db.courses)
    && DistinctIds(StudentId, db.students)
    && forall i :: 0 <= i < |db.students| ==> HasCourse(db.courses, db.students[i].course)
  }

  /** Position of the record with primary key `id`, if any. */
  function IndexOf<T>(idOf: T -> nat, s: seq<T>, id: nat): (r: Option<nat>)
    ensures r.None? <==> forall j :: 0 <= j < |s| ==> idOf(s[j]) != id
    ensures r.Some? ==> r.value < |s| && idOf(s[r.value]) == id
    decreases |s|
  {
    if |s| == 0 then None
    else if idOf(s[0]) == id then Some(0)
    else
      match IndexOf(idOf, s[1..], id)
      case None =>
        assert forall j :: 1 <= j < |s| ==> s[j] == s[1..][j - 1];
        None
      case Some(k) => Some(k + 1)
  }

  /** `s` with the element at position `i` taken out. */
  function Without<T>(s: seq<T>, i: nat): (r: seq<T>)
    requires i < |s|
    ensures |r| == |s| - 1
    ensures forall k :: 0 <= k < i ==> r[k] == s[k]
    ensures forall k :: i < k < |s| ==> r[k - 1] == s[k]
  {
    s[..i] + s[i + 1..]
  }

  lemma WithoutDistinct<T>(idOf: T -> nat, s: seq<T>, i: nat)
    requires i < |s| && DistinctIds(idOf, s)
    ensures DistinctIds(idOf, Without(s, i))
  {
    var r := Without(s, i);
    forall a, b | 0 <= a < b < |r| ensures idOf(r[a]) != idOf(r[b]) {
      var a' := if a < i then a else a + 1;
      var b' := if b < i then b else b + 1;
      assert r[a] == s[a'] && r[b] == s[b'];
    }
  }

  lemma WithoutMultiset<T>(s: seq<T>, i: nat)
    requires i < |s|
    ensures multiset(Without(s, i)) == multiset(s) - multiset{s[i]}
  {
    assert s == s[..i] + [s[i]] + s[i + 1..];
  }

  lemma {:induction false} SelectDistinct(p: Pred, courses: seq<Course>, s: seq<Student>)
    requires DistinctIds(StudentId, s)
    ensures DistinctIds(StudentId, Select(p, courses, s))
    decreases |s|
  {
    if |s| > 0 {
      var rest := Select(p, courses, s[1..]);
      assert DistinctIds(StudentId, s[1..]) by {
        forall a, b | 0 <= a < b < |s[1..]| ensures s[1..][a].id != s[1..][b].id {
          assert s[1..][a] == s[a + 1] && s[1..][b] == s[b + 1];
        }
      }
      SelectDistinct(p, courses, s[1..]);
      SelectHead(p, courses, s);
      if Eval(p, courses, s[0]) {
        forall k | 0 <= k < |rest| ensures rest[k].id != s[0].id {
          assert rest[k] in s[1..];
          var m :| 0 <= m < |s[1..]| && s[1..][m] == rest[k];
          assert s[m + 1] == rest[k];
        }
        DistinctCons(s[0], rest);
      }
    }
  }

  /** A record whose key no other carries keeps keys distinct when put in front. */
  lemma DistinctCons(y: Student, t: seq<Student>)
    requires DistinctIds(StudentId, t)
    requires forall k :: 0 <= k < |t| ==> t[k].id != y.id
    ensures DistinctIds(StudentId, [y] + t)
  {
    var r := [y] + t;
    forall a, b | 0 <= a < b < |r| ensures StudentId(r[a]) != StudentId(r[b]) {
      assert r[b] == t[b - 1];
      if a > 0 {
        assert r[a] == t[a - 1];
      }
    }
  }

  /** The course with primary key `id`, `None` when there is none. */
  function GetCourse(db: Db, id: nat): (r: Option<Course>)
    ensures r.Some? <==> exists i :: 0 <= i < |db.courses| && db.courses[i].id == id
    ensures r.Some? ==> r.value in db.courses && r.value.id == id
  {
    FindCourse(db.courses, id)
  }

  /** The student with primary key `id`, `None` when there is none. */
  function GetStudent(db: Db, id: nat): (r: Option<Student>)
    ensures r.Some? <==> exists i :: 0 <= i < |db.students| && db.students[i].id == id
    ensures r.Some? ==> r.value in db.students && r.value.id == id
  {
    match IndexOf(StudentId, db.students, id)
    case Some(i) => Some(db.students[i])
    case None => None
  }

  /** The reverse relation `course.students`: exactly the students whose
      foreign key is `courseId`, in table order. */
  function CourseStudents(db: Db, courseId: nat): (r: seq<Student>)
    ensures forall x :: x in r <==> x in db.students && x.course == courseId
  {
    Select(CourseIs(courseId), db.courses, db.students)
  }

  /** Inserts a course; refused when its primary key is already taken. */
  function AddCourse(db: Db, c: Course): (r: Option<Db>)
    ensures r.Some? <==> !HasCourse(db.courses, c.id)
    ensures r.Some? ==> r.value.courses == db.courses + [c] && r.value.students == db.students
    ensures r.Some? && WellFormed(db) ==> WellFormed(r.value)
  {
    if HasCourse(db.courses, c.id) then None
    else
      var r := Db(db.courses + [c], db.students);
      assert forall k :: 0 <= k < |db.courses| ==> r.courses[k] == db.courses[k];
      Some(r)
  }

  /** Inserts a student; refused when its primary key is taken or its foreign
      key names no course (the integrity error of a non-null foreign key). */
  function AddStudent(db: Db, s: Student): (r: Option<Db>)
    ensures r.Some? <==> GetStudent(db, s.id).None? && HasCourse(db.courses, s.course)
    ensures r.Some? ==> r.value.students == db.students + [s] && r.value.courses == db.courses
    ensures r.Some? && WellFormed(db) ==> WellFormed(r.value)
  {
    if GetStudent(db, s.id).Some? || !HasCourse(db.courses, s.course) then None
    else
      var r := Db(db.courses, db.students + [s]);
      assert forall k :: 0 <= k < |db.students| ==> r.students[k] == db.students[k];
      Some(r)
  }

  /** Saves the edited fields of an existing student (the student with the same
      primary key); refused when there is no such student or the new course
      does not exist. */
  function UpdateStudent(db: Db, s: Student): (r: Option<Db>)
    ensures r.Some? <==> GetStudent(db, s.id).Some? && HasCourse(db.courses, s.course)
    ensures r.Some? ==> r.value.courses == db.courses && |r.value.students| == |db.students|
    ensures r.Some? && WellFormed(db) ==>
      && WellFormed(r.value)
      && forall k :: 0 <= k < |db.students| ==>
           r.value.students[k] == (if db.students[k].id == s.id then s else db.students[k])
  {
    match IndexOf(StudentId, db.students, s.id)
    case None => None
    case Some(i) =>
      if !HasCourse(db.courses, s.course) then None
      else
        var r := Db(db.courses, db.students[i := s]);
        if WellFormed(db) then
          ReplaceStudent(db, i, s);
          Some(r)
        else
          Some(r)
  }

  /** Replacing student `i` by a record with the same key and an existing
      course keeps the store well-formed, and only position `i` changes. */
  lemma ReplaceStudent(db: Db, i: nat, s: Student)
    requires WellFormed(db) && i < |db.students| && db.students[i].id == s.id
    requires HasCourse(db.courses, s.course)
    ensures WellFormed(Db(db.courses, db.students[i := s]))
    ensures forall k :: 0 <= k < |db.students| ==>
      db.students[i := s][k] == (if db.students[k].id == s.id then s else db.students[k])
  {
    var st := db.students[i := s];
    forall k | 0 <= k < |db.students| && k != i ensures db.students[k].id != s.id {
      assert StudentId(db.students[k]) != StudentId(db.students[i]) by {
        if k < i { assert 0 <= k < i < |db.students|; } else { assert 0 <= i < k < |db.students|; }
      }
    }
    forall a, b | 0 <= a < b < |st| ensures StudentId(st[a]) != StudentId(st[b]) {
      assert StudentId(db.students[a]) != StudentId(db.students[b]);
    }
  }

  /** Deletes one student; `None` when there is no student with that key. */
  function DeleteStudent(db: Db, id: nat): (r: Option<Db>)
    ensures r.Some? <==> GetStudent(db, id).Some?
    ensures r.Some? ==> r.value.courses == db.courses
    ensures r.Some? ==> multiset(r.value.students) == multiset(db.students) - multiset{GetStudent(db, id).value}
    ensures r.Some? ==> |r.value.students| == |db.students| - 1
    ensures r.Some? && WellFormed(db) ==>
      && WellFormed(r.value)
      && forall x :: x in r.value.students <==> x in db.students && x.id != id
  {
    match IndexOf(StudentId, db.students, id)
    case None => None
    case Some(i) =>
      var r := Db(db.courses, Without(db.students, i));
      WithoutMultiset(db.students, i);
      if WellFormed(db) then
        WithoutStudent(db, i);
        Some(r)
      else
        Some(r)
  }

  /** Taking out student `i` of a well-formed store keeps it well-formed and
      keeps every other student. */
  lemma WithoutStudent(db: Db, i: nat)
    requires WellFormed(db) && i < |db.students|
    ensures WellFormed(Db(db.courses, Without(db.students, i)))
    ensures forall x :: x in Without(db.students, i) <==> x in db.students && x.id != db.students[i].id
  {
    var rest := Without(db.students, i);
    WithoutDistinct(StudentId, db.students, i);
    WithoutKeeps(db.students, i);
    assert forall k :: 0 <= k < |rest| ==> HasCourse(db.courses, rest[k].course) by {
      forall k | 0 <= k < |rest| ensures HasCourse(db.courses, rest[k].course) {
        assert rest[k] in db.students;
      }
    }
    assert forall x :: x in rest <==> x in db.students && x.id != db.students[i].id by {
      WithoutIdMembers(db.students, i);
    }
  }

  /** Every element left by `Without` was in the input. */
  lemma WithoutKeeps<T>(s: seq<T>, i: nat)
    requires i < |s|
    ensures forall x :: x in Without(s, i) ==> x in s
  {
    var r := Without(s, i);
    forall x | x in r ensures x in s {
      var k :| 0 <= k < |r| && r[k] == x;
      var k' := if k < i then k else k + 1;
      assert s[k'] == x;
    }
  }

  /** With unique keys, `Without` drops exactly the records with the key of `s[i]`. */
  lemma WithoutIdMembers(s: seq<Student>, i: nat)
    requires i < |s| && DistinctIds(StudentId, s)
    ensures forall x :: x in Without(s, i) <==> x in s && x.id != s[i].id
  {
    var r := Without(s, i);
    forall x | x in r ensures x.id != s[i].id {
      var k :| 0 <= k < |r| && r[k] == x;
      var k' := if k < i then k else k + 1;
      assert s[k'] == x;
    }
    WithoutKeeps(s, i);
    forall x | x in s && x.id != s[i].id ensures x in r {
      var k' :| 0 <= k' < |s| && s[k'] == x;
      var k := if k' < i then k' else k' - 1;
      assert r[k] == x;
    }
  }


  /** A student kept by the cascade still finds its course after the course
      `i` is taken out, because its foreign key names a different course. */
  lemma StillHasCourse(courses: seq<Course>, i: nat, k: nat)
    requires i < |courses| && HasCourse(courses, k) && k != courses[i].id
    ensures HasCourse(Without(courses, i), k)
  {
    var j :| 0 <= j < |courses| && courses[j].id == k;
    var r := Without(courses, i);
    if j < i {
      assert r[j] == courses[j];
    } else {
      assert r[j - 1] == courses[j];
    }
  }

  /** Taking out the course at `i` leaves exactly the courses with another key. */
  lemma WithoutCourseMembers(courses: seq<Course>, i: nat)
    requires i < |courses| && DistinctIds(CourseId, courses)
    ensures forall c :: c in Without(courses, i) <==> c in courses && c.id != courses[i].id
  {
    var rest := Without(courses, i);
    forall c | c in courses && c.id != courses[i].id ensures c in rest {
      var j :| 0 <= j < |courses| && courses[j] == c;
      if j < i { assert rest[j] == c; } else { assert rest[j - 1] == c; }
    }
    forall c | c in rest ensures c in courses && c.id != courses[i].id {
      var j :| 0 <= j < |rest| && rest[j] == c;
      if j < i {
        assert c == courses[j];
      } else {
        assert c == courses[j + 1];
        assert CourseId(courses[i]) != CourseId(courses[j + 1]);
      }
    }
  }

  /** The students the cascade keeps are those of other courses. */
  lemma CascadeKeeps(courses: seq<Course>, s: seq<Student>, id: nat)
    ensures forall x :: x in Select(Not(CourseIs(id)), courses, s) <==> x in s && x.course != id
  {
    assert forall x :: Eval(Not(CourseIs(id)), courses, x) <==> x.course != id;
  }

  lemma CascadeWellFormed(db: Db, id: nat, i: nat)
    requires WellFormed(db) && i < |db.courses| && db.courses[i].id == id
    ensures WellFormed(Db(Without(db.courses, i), Select(Not(CourseIs(id)), db.courses, db.students)))
  {
    var kept := Select(Not(CourseIs(id)), db.courses, db.students);
    var rest := Without(db.courses, i);
    WithoutDistinct(CourseId, db.courses, i);
    SelectDistinct(Not(CourseIs(id)), db.courses, db.students);
    CascadeKeeps(db.courses, db.students, id);
    forall k | 0 <= k < |kept| ensures HasCourse(rest, kept[k].course) {
      assert kept[k] in db.students;
      var m :| 0 <= m < |db.students| && db.students[m] == kept[k];
      assert HasCourse(db.courses, kept[k].course);
      StillHasCourse(db.courses, i, kept[k].course);
    }
  }

  /** `course.delete()` with `on_delete=CASCADE`: removes the course and,
      in the same step, every student whose foreign key names it; other
      courses and students stay, in their order. `None` when no course has
      that key. */
  function DeleteCourse(db: Db, id: nat): (r: Option<Db>)
    ensures r.Some? <==> HasCourse(db.courses, id)
    ensures r.Some? ==> |r.value.courses| == |db.courses| - 1
    ensures r.Some? ==> forall x :: x in r.value.students <==> x in db.students && x.course != id
    ensures r.Some? ==> |r.value.students| == |db.students| - |CourseStudents(db, id)|
    ensures r.Some? ==> multiset(r.value.students) <= multiset(db.students)
    ensures r.Some? && WellFormed(db) ==>
      && WellFormed(r.value)
      && forall c :: c in r.value.courses <==> c in db.courses && c.id != id
  {
    match IndexOf(CourseId, db.courses, id)
    case None => None
    case Some(i) =>
      var kept := Select(Not(CourseIs(id)), db.courses, db.students);
      var r := Db(Without(db.courses, i), kept);
      SelectPartition(CourseIs(id), db.courses, db.students);
      SelectSubMultiset(Not(CourseIs(id)), db.courses, db.students);
      CascadeKeeps(db.courses, db.students, id);
      if WellFormed(db) then
        CascadeWellFormed(db, id, i);
        WithoutCourseMembers(db.courses, i);
        Some(r)
      else
        Some(r)
  }

  // ---------------------------------------------------------------------------
  // Inserts undone by deletes

  /** A key that no earlier record carries is found at the appended position. */
  lemma IndexOfAppended<T>(idOf: T -> nat, s: seq<T>, x: T)
    requires forall j :: 0 <= j < |s| ==> idOf(s[j]) != idOf(x)
    ensures IndexOf(idOf, s + [x], idOf(x)) == Some(|s|)
  {
    assert (s + [x])[|s|] == x;
  }

  /** Deleting a student just added gives back the store as it was. */
  lemma AddThenDeleteStudent(db: Db, s: Student)
    requires AddStudent(db, s).Some?
    ensures DeleteStudent(AddStudent(db, s).value, s.id) == Some(db)
  {
    IndexOfAppended(StudentId, db.students, s);
    assert Without(db.students + [s], |db.students|) == db.students;
  }

  /** No student of a well-formed store references a course key that is
      not in the table, so the cascade for such a key keeps every student. */
  lemma CascadeOfUnusedKey(db: Db, c: Course)
    requires WellFormed(db) && !HasCourse(db.courses, c.id)
    ensures Select(Not(CourseIs(c.id)), db.courses + [c], db.students) == db.students
  {
    forall x | x in db.students ensures Eval(Not(CourseIs(c.id)), db.courses + [c], x) {
      var k :| 0 <= k < |db.students| && db.students[k] == x;
      assert HasCourse(db.courses, x.course);
    }
    SelectKeepsAll(Not(CourseIs(c.id)), db.courses + [c], db.students);
  }

  /** Deleting a course just added to a well-formed store gives back the
      store as it was: no student can reference the new course yet, so the
      cascade removes nobody. */
  lemma AddThenDeleteCourse(db: Db, c: Course)
    requires WellFormed(db) && AddCourse(db, c).Some?
    ensures DeleteCourse(AddCourse(db, c).value, c.id) == Some(db)
  {
    var courses := db.courses + [c];
    assert AddCourse(db, c).value == Db(courses, db.students);
    assert forall j :: 0 <= j < |db.courses| ==> db.courses[j].id != c.id;
    IndexOfAppended(CourseId, db.courses, c);
    assert Without(courses, |db.courses|) == db.courses;
    CascadeOfUnusedKey(db, c);
  }
}
