/** The sample data the `seed` command loads and what the views report over
    it. The facts are stated for any store holding exactly the seed rows
    (`IsSeed`), and `Seed` is one. Primary keys 1 to 3 and 1 to 8 are the
    ones fresh tables hand out; the model takes them as given. */
module SeedData {
  import opened Wrappers
  import opened Models
  import opened Predicates
  import opened RecordStore
  import opened Aggregates

  const Python := Course(1, "Python", "Learn Python programming from scratch.")
  const Django := Course(2, "Django", "Build web apps with Django.")
  const JavaScript := Course(3, "JavaScript", "Master modern JavaScript and ES6+.")
  const SeedCourses := [Python, Django, JavaScript]

  /** Seed student number `k`, counting from 0, in creation order. */
  function StudentAt(k: nat): Student
    requires k < 8
  {
    if k == 0 then Student(1, "John", 22, "john@example.com", 1)
    else if k == 1 then Student(2, "Sara", 19, "sara@example.com", 1)
    else if k == 2 then Student(3, "Ali", 25, "ali@example.com", 2)
    else if k == 3 then Student(4, "Maria", 21, "maria@example.com", 2)
    else if k == 4 then Student(5, "James", 17, "james@example.com", 3)
    else if k == 5 then Student(6, "Fatima", 30, "fatima@example.com", 1)
    else if k == 6 then Student(7, "Carlos", 23, "carlos@example.com", 3)
    else Student(8, "Aisha", 20, "aisha@example.com", 2)
  }

  const Seed := Db(SeedCourses, seq(8, k requires 0 <= k < 8 => StudentAt(k)))

  /** A store holding the seed rows. */
  predicate IsSeed(db: Db) {
    && db.courses == SeedCourses
    && |db.students| == 8
    && forall k :: 0 <= k < 8 ==> db.students[k] == StudentAt(k)
  }

  lemma SeedIsSeed()
    ensures IsSeed(Seed)
  {
  }

  /** The seed store keeps the store invariant: keys 1 to 3 and 1 to 8 are
      distinct and every student's course is one of the three. */
  lemma SeedWellFormed(db: Db)
    requires IsSeed(db)
    ensures WellFormed(db)
  {
    var st := db.students;
    assert forall i :: 0 <= i < 8 ==> st[i].id == i + 1 && 1 <= st[i].course <= 3;
    forall i | 0 <= i < 8 ensures HasCourse(db.courses, st[i].course) {
      assert db.courses[st[i].course - 1].id == st[i].course;
    }
  }

  /** How many students of a list meet `p`: one step of `filter()`. */
  lemma SelectConsCount(p: Pred, courses: seq<Course>, s: seq<Student>)
    requires |s| > 0
    ensures |Select(p, courses, s)| == (if Eval(p, courses, s[0]) then 1 else 0) + |Select(p, courses, s[1..])|
  {
  }

  /** The number of seed students from position `k` on that meet `p`. */
  function CountFrom(p: Pred, k: nat): nat
    requires k <= 8
    decreases 8 - k
  {
    if k == 8 then 0 else (if Eval(p, SeedCourses, StudentAt(k)) then 1 else 0) + CountFrom(p, k + 1)
  }

  lemma {:induction false} SelectFrom(db: Db, p: Pred, k: nat)
    requires IsSeed(db) && k <= 8
    ensures |Select(p, db.courses, db.students[k..])| == CountFrom(p, k)
    decreases 8 - k
  {
    if k < 8 {
      SelectFrom(db, p, k + 1);
      SelectConsCount(p, db.courses, db.students[k..]);
      assert db.students[k..][1..] == db.students[k + 1..];
    }
  }

  /** The number of seed students meeting `p`, counted one student at a time. */
  lemma SeedCount(db: Db, p: Pred, n: nat)
    requires IsSeed(db) && CountFrom(p, 0) == n
    ensures |Select(p, db.courses, db.students)| == n
  {
    SelectFrom(db, p, 0);
    assert db.students[0..] == db.students;
  }

  /** `age__range=(18, 23)` keeps five of the eight (John, Sara, Maria,
      Carlos, Aisha); James, at 17, is out. */
  lemma SeedAgeRange(db: Db)
    requires IsSeed(db)
    ensures |Select(AgeRange(18, 23), db.courses, db.students)| == 5
  {
    assert CountFrom(AgeRange(18, 23), 0) == 5;
    SeedCount(db, AgeRange(18, 23), 5);
  }

  /** `age__gt=20` keeps five: John, Ali, Maria, Fatima and Carlos. */
  lemma SeedAgeOver20(db: Db)
    requires IsSeed(db)
    ensures |Select(AgeGt(20), db.courses, db.students)| == 5
  {
    assert CountFrom(AgeGt(20), 0) == 5;
    SeedCount(db, AgeGt(20), 5);
  }

  /** `Q(age__lt=20) | Q(age__gt=24)` keeps four: Sara, Ali, James, Fatima. */
  lemma SeedYoungOrOld(db: Db)
    requires IsSeed(db)
    ensures |Select(Or(AgeLt(20), AgeGt(24)), db.courses, db.students)| == 4
  {
    var p := Or(AgeLt(20), AgeGt(24));
    forall k | 0 <= k < 8 ensures Eval(p, SeedCourses, StudentAt(k)) <==> StudentAt(k).age < 20 || StudentAt(k).age > 24 {}
    assert CountFrom(p, 4) == 2;
    assert CountFrom(p, 0) == 4;
    SeedCount(db, Or(AgeLt(20), AgeGt(24)), 4);
  }

  /** Keys 1 to 3 find the seed courses in creation order. */
  lemma SeedCourseFound(id: nat)
    requires 1 <= id <= 3
    ensures FindCourse(SeedCourses, id) == Some(SeedCourses[id - 1])
  {
    assert SeedCourses[id - 1].id == id;
  }

  /** `~Q(course__title='Python')` keeps five: everyone outside Python. */
  lemma SeedNotPython(db: Db)
    requires IsSeed(db)
    ensures |Select(Not(CourseTitleIs("Python")), db.courses, db.students)| == 5
  {
    var p := Not(CourseTitleIs("Python"));
    forall k | 0 <= k < 8 ensures Eval(p, SeedCourses, StudentAt(k)) <==> StudentAt(k).course != 1 {
      SeedCourseFound(StudentAt(k).course);
    }
    assert CountFrom(p, 4) == 3;
    assert CountFrom(p, 0) == 5;
    SeedCount(db, Not(CourseTitleIs("Python")), 5);
  }

  /** Python (key 1): John, Sara and Fatima. */
  lemma SeedPythonCount(db: Db)
    requires IsSeed(db)
    ensures |CourseStudents(db, 1)| == 3
  {
    assert CountFrom(CourseIs(1), 0) == 3;
    SeedCount(db, CourseIs(1), 3);
  }

  /** Django (key 2): Ali, Maria and Aisha. */
  lemma SeedDjangoCount(db: Db)
    requires IsSeed(db)
    ensures |CourseStudents(db, 2)| == 3
  {
    assert CountFrom(CourseIs(2), 0) == 3;
    SeedCount(db, CourseIs(2), 3);
  }

  /** JavaScript (key 3): James and Carlos. */
  lemma SeedJavaScriptCount(db: Db)
    requires IsSeed(db)
    ensures |CourseStudents(db, 3)| == 2
  {
    assert CountFrom(CourseIs(3), 0) == 2;
    SeedCount(db, CourseIs(3), 2);
  }

  /** Python and Django have three students each, JavaScript two. */
  lemma SeedCourseCounts(db: Db)
    requires IsSeed(db)
    ensures |CourseStudents(db, 1)| == 3
    ensures |CourseStudents(db, 2)| == 3
    ensures |CourseStudents(db, 3)| == 2
  {
    SeedPythonCount(db);
    SeedDjangoCount(db);
    SeedJavaScriptCount(db);
  }

  function SumFrom(k: nat): int
    requires k <= 8
    decreases 8 - k
  {
    if k == 8 then 0 else StudentAt(k).age + SumFrom(k + 1)
  }

  lemma {:induction false} SumFromTail(db: Db, k: nat)
    requires IsSeed(db) && k <= 8
    ensures SumOf(AgeOf, db.students[k..]) == SumFrom(k)
    decreases 8 - k
  {
    if k < 8 {
      SumFromTail(db, k + 1);
      assert db.students[k..][1..] == db.students[k + 1..];
    }
  }

  lemma SeedAgeSum(db: Db)
    requires IsSeed(db)
    ensures SumOf(AgeOf, db.students) == 177
  {
    SumFromTail(db, 0);
    assert db.students[0..] == db.students;
  }

  /** Over all students: eight of them, ages 17 to 30, summing to 177. */
  lemma SeedAggregates(db: Db)
    requires IsSeed(db)
    ensures Aggregate(db.students) == Stats(8, Some(30), Some(17), Some(177))
  {
    var st := db.students;
    assert forall i :: 0 <= i < 8 ==> 17 <= st[i].age <= 30 by {
      assert forall i :: 0 <= i < 8 ==> st[i] == StudentAt(i);
    }
    assert st[5].age == 30 && st[4].age == 17;
    SeedAgeSum(db);
  }

  /** `filter(age__lt=18).exists()` is true: James is 17. */
  lemma SeedHasYoung(db: Db)
    requires IsSeed(db)
    ensures Exists(AgeLt(18), db.courses, db.students)
  {
    assert Eval(AgeLt(18), db.courses, db.students[4]);
  }
}
