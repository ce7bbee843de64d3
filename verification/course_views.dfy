/** `course_list` and `course_detail`: every course with the number of
    students in it, and one course with its students and their age
    statistics. */
module CourseViews {
  import opened Wrappers
  import opened Models
  import opened Predicates
  import opened Sorting
  import opened RecordStore
  import opened Aggregates

  function RowTitleKey(r: CourseRow): Key { Str(r.course.title) }

  /** `course_list`: every course annotated with its student count, ordered by title. */
  function CourseList(db: Db): (r: seq<CourseRow>)
    ensures |r| == |db.courses|
    ensures multiset(r) == multiset(Annotate(db.courses, db.courses, db.students))
    ensures Sorted(RowTitleKey, false, r)
  {
    SortBy(RowTitleKey, false, Annotate(db.courses, db.courses, db.students))
  }

  /** Each row of the course list is one course of the store with the number
      of its students, and every course has a row. */
  lemma CourseListRows(db: Db)
    ensures forall row :: row in CourseList(db) ==>
      row.course in db.courses && row.studentCount == |CourseStudents(db, row.course.id)|
    ensures forall c :: c in db.courses ==> exists row :: row in CourseList(db) && row.course == c
  {
    var rows := Annotate(db.courses, db.courses, db.students);
    var r := CourseList(db);
    assert forall row :: row in r <==> row in multiset(r);
    assert forall row :: row in rows <==> row in multiset(rows);
    forall row | row in r ensures row.course in db.courses && row.studentCount == |CourseStudents(db, row.course.id)| {
      var i :| 0 <= i < |rows| && rows[i] == row;
      assert db.courses[i] in db.courses;
    }
    forall c | c in db.courses ensures exists row :: row in r && row.course == c {
      var i :| 0 <= i < |db.courses| && db.courses[i] == c;
      assert rows[i] in rows;
    }
  }

  /** Every student is counted under exactly one course: in a well-formed
      store the counts add up to the number of students. */
  lemma CourseListCountsSum(db: Db)
    requires WellFormed(db)
    ensures SumOf(RowCount, CourseList(db)) == |db.students|
  {
    var rows := Annotate(db.courses, db.courses, db.students);
    CountsCoverStudents(db.courses, db.courses, db.students);
    SumOfSortBy(RowCount, RowTitleKey, false, rows);
  }

  datatype CourseDetailPage = CourseDetailPage(course: Course, students: seq<Student>, stats: Stats)

  /** `course_detail`: the course, its students ordered by name, and their
      statistics; `None` (a 404) when no course has key `pk`. */
  function CourseDetail(db: Db, pk: nat): (r: Option<CourseDetailPage>)
    ensures r.Some? <==> HasCourse(db.courses, pk)
    ensures r.Some? ==> r.value.course in db.courses && r.value.course.id == pk
    ensures r.Some? ==> multiset(r.value.students) == multiset(CourseStudents(db, pk))
    ensures r.Some? ==> Sorted(NameKey, false, r.value.students)
    ensures r.Some? ==> r.value.stats == Aggregate(CourseStudents(db, pk))
  {
    match GetCourse(db, pk)
    case None => None
    case Some(c) =>
      var members := CourseStudents(db, pk);
      var students := SortBy(NameKey, false, members);
      AggregateOrderInvariant(NameKey, false, members);
      Some(CourseDetailPage(c, students, Aggregate(students)))
  }

  /** The detail page lists exactly the course's students, counts them, and
      bounds their ages by its minimum and maximum; with no students the
      maximum, minimum and sum are all absent. */
  lemma CourseDetailStats(db: Db, pk: nat)
    requires HasCourse(db.courses, pk)
    ensures var p := CourseDetail(db, pk).value;
      && (forall x :: x in p.students <==> x in db.students && x.course == pk)
      && p.stats.total == |p.students|
      && (p.stats.total == 0 <==> p.stats.maxAge.None?)
      && (p.stats.total == 0 ==> p.stats.minAge.None? && p.stats.sumAge.None?)
      && (p.stats.total > 0 ==> forall x :: x in p.students ==> p.stats.minAge.value <= x.age <= p.stats.maxAge.value)
  {
    var p := CourseDetail(db, pk).value;
    var members := CourseStudents(db, pk);
    assert forall x :: x in p.students <==> x in multiset(p.students);
    assert forall x :: x in members <==> x in multiset(members);
    assert |p.students| == |members| by {
      assert |multiset(p.students)| == |multiset(members)|;
    }
  }
}
