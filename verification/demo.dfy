/** `queryset_demo`: the demonstration page's reads, filter lookups, `Q`
    combinations, aggregation, annotation, projections, `exists()` and
    orderings, each over the whole store. */
module QuerysetDemo {
  import opened Text
  import opened Models
  import opened Predicates
  import opened Sorting
  import opened RecordStore
  import opened Aggregates

  datatype StudentValues = StudentValues(id: nat, name: string, age: int, courseTitle: string)
  datatype NameAge = NameAge(name: string, age: int)
  datatype NameAgeTitle = NameAgeTitle(name: string, age: int, courseTitle: string)
  datatype TitleCount = TitleCount(title: string, studentCount: nat)

  /** `.values('id', 'name', 'age', 'course__title')`. */
  function ValuesAll(courses: seq<Course>, s: seq<Student>): (r: seq<StudentValues>)
    ensures |r| == |s|
    ensures forall i :: 0 <= i < |s| ==>
      r[i] == StudentValues(s[i].id, s[i].name, s[i].age, TitleOf(courses, s[i].course))
  {
    if |s| == 0 then []
    else [StudentValues(s[0].id, s[0].name, s[0].age, TitleOf(courses, s[0].course))] + ValuesAll(courses, s[1..])
  }

  /** `.values('name', 'age')`. */
  function ValuesNameAge(s: seq<Student>): (r: seq<NameAge>)
    ensures |r| == |s|
  {
    if |s| == 0 then [] else [NameAge(s[0].name, s[0].age)] + ValuesNameAge(s[1..])
  }

  /** Row `i` of the projection is student `i`'s name and age. */
  lemma {:induction false} ValuesNameAgeAt(s: seq<Student>)
    ensures forall i :: 0 <= i < |s| ==> ValuesNameAge(s)[i] == NameAge(s[i].name, s[i].age)
    decreases |s|
  {
    if |s| > 0 {
      ValuesNameAgeAt(s[1..]);
    }
  }

  /** `.values('name', 'age', 'course__title')`. */
  function ValuesNameAgeTitle(courses: seq<Course>, s: seq<Student>): (r: seq<NameAgeTitle>)
    ensures |r| == |s|
    ensures forall i :: 0 <= i < |s| ==> r[i] == NameAgeTitle(s[i].name, s[i].age, TitleOf(courses, s[i].course))
  {
    if |s| == 0 then []
    else [NameAgeTitle(s[0].name, s[0].age, TitleOf(courses, s[0].course))] + ValuesNameAgeTitle(courses, s[1..])
  }

  /** `.values_list('name', flat=True)`. */
  function Names(s: seq<Student>): (r: seq<string>)
    ensures |r| == |s|
    ensures forall i :: 0 <= i < |s| ==> r[i] == s[i].name
  {
    if |s| == 0 then [] else [s[0].name] + Names(s[1..])
  }

  /** `.values('title', 'student_count')` of annotated courses. */
  function TitleCounts(rows: seq<CourseRow>): (r: seq<TitleCount>)
    ensures |r| == |rows|
    ensures forall i :: 0 <= i < |rows| ==> r[i] == TitleCount(rows[i].course.title, rows[i].studentCount)
  {
    if |rows| == 0 then [] else [TitleCount(rows[0].course.title, rows[0].studentCount)] + TitleCounts(rows[1..])
  }

  datatype DemoReport = DemoReport(
    allStudents: seq<StudentValues>,
    count: nat,
    ageGt20: seq<NameAge>,
    nameContainsA: seq<NameAge>,
    ageRange: seq<NameAge>,
    qOr: seq<NameAge>,
    qNot: seq<NameAgeTitle>,
    aggregates: Stats,
    coursesAnnotated: seq<TitleCount>,
    values: seq<NameAge>,
    valuesList: seq<string>,
    hasStudents: bool,
    hasYoung: bool,
    orderedAsc: seq<NameAge>,
    orderedDesc: seq<NameAge>)

  /** The lookups the page demonstrates. */
  const AgeOver20: Pred := AgeGt(20)
  const NameHasA: Pred := NameIContains("a")
  const AgeIn18To23: Pred := AgeRange(18, 23)
  const YoungOrOld: Pred := Or(AgeLt(20), AgeGt(24))
  const NotPython: Pred := Not(CourseTitleIs("Python"))
  const Young: Pred := AgeLt(18)

  /** `filter(p).values('name', 'age')` holds exactly the name/age pairs of
      the students meeting `p`. */
  lemma ProjectedSelect(p: Pred, courses: seq<Course>, s: seq<Student>)
    ensures forall y :: y in ValuesNameAge(Select(p, courses, s)) <==>
      exists x :: x in s && Eval(p, courses, x) && y == NameAge(x.name, x.age)
  {
    var sel := Select(p, courses, s);
    var r := ValuesNameAge(sel);
    ValuesNameAgeAt(sel);
    forall y | y in r ensures exists x :: x in s && Eval(p, courses, x) && y == NameAge(x.name, x.age) {
      var i :| 0 <= i < |r| && r[i] == y;
      assert sel[i] in sel;
    }
    forall y | exists x :: x in s && Eval(p, courses, x) && y == NameAge(x.name, x.age) ensures y in r {
      var x :| x in s && Eval(p, courses, x) && y == NameAge(x.name, x.age);
      assert x in sel;
      var i :| 0 <= i < |sel| && sel[i] == x;
      assert r[i] == y;
    }
  }

  /** The rows of `rows` that pass `keep`, each as often as in `rows`, in
      order. */
  function FilterRows(keep: NameAge -> bool, rows: seq<NameAge>): (r: seq<NameAge>)
    ensures |r| <= |rows|
    ensures forall y :: y in r <==> y in rows && keep(y)
  {
    if |rows| == 0 then []
    else
      assert rows == [rows[0]] + rows[1..];
      (if keep(rows[0]) then [rows[0]] else []) + FilterRows(keep, rows[1..])
  }

  /** For a lookup that reads only the name and the age, filtering and then
      projecting equals projecting the whole table and then filtering its
      rows: the same rows, as often and in the same order. */
  lemma {:induction false} ProjectThenFilter(p: Pred, keep: NameAge -> bool, courses: seq<Course>, s: seq<Student>)
    requires forall x :: Eval(p, courses, x) == keep(NameAge(x.name, x.age))
    ensures ValuesNameAge(Select(p, courses, s)) == FilterRows(keep, ValuesNameAge(s))
    decreases |s|
  {
    if |s| > 0 {
      ProjectThenFilter(p, keep, courses, s[1..]);
      SelectHead(p, courses, s);
      var rest := Select(p, courses, s[1..]);
      if Eval(p, courses, s[0]) {
        assert ([s[0]] + rest)[1..] == rest;
      }
    }
  }

  /** The row tests matching the demonstrated lookups. */
  predicate RowOver20(y: NameAge) { y.age > 20 }
  predicate RowHasA(y: NameAge) { IContains(y.name, "a") }
  predicate RowIn18To23(y: NameAge) { 18 <= y.age <= 23 }
  predicate RowYoungOrOld(y: NameAge) { y.age < 20 || y.age > 24 }

  /** `age__gt=20` is strict. */
  function AgeOver20Rows(db: Db): (r: seq<NameAge>)
    ensures forall y :: y in r <==> exists x :: x in db.students && x.age > 20 && y == NameAge(x.name, x.age)
    ensures r == FilterRows(RowOver20, ValuesNameAge(db.students))
  {
    ProjectThenFilter(AgeOver20, RowOver20, db.courses, db.students);
    ProjectedSelect(AgeOver20, db.courses, db.students);
    ValuesNameAge(Select(AgeOver20, db.courses, db.students))
  }

  /** `name__icontains='a'` keeps the names holding an `a` or an `A`. */
  function NameHasARows(db: Db): (r: seq<NameAge>)
    ensures forall y :: y in r <==> exists x :: x in db.students && IContains(x.name, "a") && y == NameAge(x.name, x.age)
    ensures r == FilterRows(RowHasA, ValuesNameAge(db.students))
  {
    ProjectThenFilter(NameHasA, RowHasA, db.courses, db.students);
    ProjectedSelect(NameHasA, db.courses, db.students);
    ValuesNameAge(Select(NameHasA, db.courses, db.students))
  }

  /** `age__range=(18, 23)` includes both ends. */
  function AgeIn18To23Rows(db: Db): (r: seq<NameAge>)
    ensures forall y :: y in r <==> exists x :: x in db.students && 18 <= x.age <= 23 && y == NameAge(x.name, x.age)
    ensures r == FilterRows(RowIn18To23, ValuesNameAge(db.students))
  {
    ProjectThenFilter(AgeIn18To23, RowIn18To23, db.courses, db.students);
    ProjectedSelect(AgeIn18To23, db.courses, db.students);
    ValuesNameAge(Select(AgeIn18To23, db.courses, db.students))
  }

  /** `Q(age__lt=20) | Q(age__gt=24)`: under 20 or over 24. */
  function YoungOrOldRows(db: Db): (r: seq<NameAge>)
    ensures forall y :: y in r <==> exists x :: x in db.students && (x.age < 20 || x.age > 24) && y == NameAge(x.name, x.age)
    ensures r == FilterRows(RowYoungOrOld, ValuesNameAge(db.students))
  {
    ProjectThenFilter(YoungOrOld, RowYoungOrOld, db.courses, db.students);
    ProjectedSelect(YoungOrOld, db.courses, db.students);
    assert forall x :: Eval(YoungOrOld, db.courses, x) <==> x.age < 20 || x.age > 24;
    ValuesNameAge(Select(YoungOrOld, db.courses, db.students))
  }

  /** `filter(p).values('name', 'age', 'course__title')` holds exactly the
      rows of the students meeting `p`. */
  lemma ProjectedSelectTitle(p: Pred, courses: seq<Course>, s: seq<Student>)
    ensures forall y :: y in ValuesNameAgeTitle(courses, Select(p, courses, s)) <==>
      exists x :: x in s && Eval(p, courses, x) && y == NameAgeTitle(x.name, x.age, TitleOf(courses, x.course))
  {
    var sel := Select(p, courses, s);
    var r := ValuesNameAgeTitle(courses, sel);
    forall y | y in r ensures exists x :: x in s && Eval(p, courses, x) && y == NameAgeTitle(x.name, x.age, TitleOf(courses, x.course)) {
      var i :| 0 <= i < |r| && r[i] == y;
      assert sel[i] in sel;
    }
    forall y | exists x :: x in s && Eval(p, courses, x) && y == NameAgeTitle(x.name, x.age, TitleOf(courses, x.course))
      ensures y in r
    {
      var x :| x in s && Eval(p, courses, x) && y == NameAgeTitle(x.name, x.age, TitleOf(courses, x.course));
      assert x in sel;
      var i :| 0 <= i < |sel| && sel[i] == x;
      assert r[i] == y;
    }
  }

  /** `~Q(course__title='Python')` keeps a student exactly when its course's
      title, read through the foreign key, is not `Python`. */
  lemma NotPythonMeaning(courses: seq<Course>, x: Student)
    ensures Eval(NotPython, courses, x) <==> TitleOf(courses, x.course) != "Python"
  {
  }

  /** `~Q(course__title='Python')`: the rows of exactly the students whose
      course is not titled `Python`; with the Python students they make up
      the table. */
  function NotPythonRows(db: Db): (r: seq<NameAgeTitle>)
    ensures forall y :: y in r <==>
      exists x :: x in db.students && TitleOf(db.courses, x.course) != "Python" && y == NameAgeTitle(x.name, x.age, TitleOf(db.courses, x.course))
    ensures |r| + |Select(CourseTitleIs("Python"), db.courses, db.students)| == |db.students|
    ensures forall y :: y in r ==> y.courseTitle != "Python"
  {
    var nots := Select(NotPython, db.courses, db.students);
    var r := ValuesNameAgeTitle(db.courses, nots);
    SelectPartition(CourseTitleIs("Python"), db.courses, db.students);
    ProjectedSelectTitle(NotPython, db.courses, db.students);
    forall x ensures Eval(NotPython, db.courses, x) <==> TitleOf(db.courses, x.course) != "Python" {
      NotPythonMeaning(db.courses, x);
    }
    r
  }

  /** `exists()` on the whole table: whether there is any student. */
  function HasStudents(db: Db): (b: bool)
    ensures b <==> |db.students| > 0
  {
    var b := Exists(All, db.courses, db.students);
    assert |db.students| > 0 ==> Eval(All, db.courses, db.students[0]);
    b
  }

  /** `filter(age__lt=18).exists()`. */
  function HasYoung(db: Db): (b: bool)
    ensures b <==> exists i :: 0 <= i < |db.students| && db.students[i].age < 18
  {
    Exists(Young, db.courses, db.students)
  }

  /** `annotate(student_count=Count('students'))` over the courses, in store
      order: each course with the number of its own students. */
  function CoursesAnnotated(db: Db): (r: seq<TitleCount>)
    ensures |r| == |db.courses|
    ensures forall i :: 0 <= i < |db.courses| ==>
      r[i] == TitleCount(db.courses[i].title, |CourseStudents(db, db.courses[i].id)|)
  {
    TitleCounts(Annotate(db.courses, db.courses, db.students))
  }

  function RowAgeKey(r: NameAge): Key { Num(r.age) }

  /** `order_by('age').values('name', 'age')` (`'-age'` when `desc`). The key
      is one of the projected columns, so the projected rows are sorted
      directly: every student's row once, ages non-decreasing
      (non-increasing). */
  function OrderedByAge(db: Db, desc: bool): (r: seq<NameAge>)
    ensures |r| == |db.students|
    ensures multiset(r) == multiset(ValuesNameAge(db.students))
    ensures forall i, j :: 0 <= i < j < |r| ==> if desc then r[i].age >= r[j].age else r[i].age <= r[j].age
  {
    var r := SortBy(RowAgeKey, desc, ValuesNameAge(db.students));
    forall i, j | 0 <= i < j < |r| ensures if desc then r[i].age >= r[j].age else r[i].age <= r[j].age {
      assert Before(RowAgeKey, desc, r[i], r[j]);
    }
    r
  }

  /** `queryset_demo` over the store. */
  function Demo(db: Db): DemoReport {
    DemoReport(
      ValuesAll(db.courses, db.students),
      |db.students|,
      AgeOver20Rows(db),
      NameHasARows(db),
      AgeIn18To23Rows(db),
      YoungOrOldRows(db),
      NotPythonRows(db),
      Aggregate(db.students),
      CoursesAnnotated(db),
      ValuesNameAge(db.students),
      Names(db.students),
      HasStudents(db),
      HasYoung(db),
      OrderedByAge(db, false),
      OrderedByAge(db, true))
  }

  function TitleCountOf(t: TitleCount): int { t.studentCount }

  /** The projection keeps every count. */
  lemma {:induction false} TitleCountsSum(rows: seq<CourseRow>)
    ensures SumOf(TitleCountOf, TitleCounts(rows)) == SumOf(RowCount, rows)
    decreases |rows|
  {
    if |rows| > 0 {
      TitleCountsSum(rows[1..]);
      SumOfHead(TitleCountOf, TitleCounts(rows));
      SumOfHead(RowCount, rows);
      assert TitleCounts(rows)[1..] == TitleCounts(rows[1..]);
    }
  }

  /** The full listing, `values()` and `values_list()` agree row by row. */
  lemma DemoListingsAgree(db: Db)
    ensures var d := Demo(db);
      forall i :: 0 <= i < d.count ==>
        d.valuesList[i] == d.values[i].name == d.allStudents[i].name && d.values[i].age == d.allStudents[i].age
  {
    ValuesNameAgeAt(db.students);
  }

  /** Both orderings hold the rows of `values()`, each as often. */
  lemma DemoOrderingsAgree(db: Db)
    ensures var d := Demo(db);
      multiset(d.orderedAsc) == multiset(d.values) && multiset(d.orderedDesc) == multiset(d.values)
  {
  }

  /** The page's sections agree with each other: the count, the full
      listing, both projections, both orderings and the aggregate total all
      see the same students (row by row for the listing and the projections,
      as the same multiset of rows for the orderings), `exists()` holds
      exactly when there is one, and in a well-formed store the per-course
      counts add up to the total. */
  lemma DemoConsistent(db: Db)
    ensures var d := Demo(db);
      && d.count == |d.allStudents| == |d.values| == |d.valuesList| == d.aggregates.total
      && |d.orderedAsc| == d.count && |d.orderedDesc| == d.count
      && multiset(d.orderedAsc) == multiset(d.values) && multiset(d.orderedDesc) == multiset(d.values)
      && (forall i :: 0 <= i < d.count ==>
            d.valuesList[i] == d.values[i].name == d.allStudents[i].name && d.values[i].age == d.allStudents[i].age)
      && (d.hasStudents <==> d.count > 0)
      && |d.coursesAnnotated| == |db.courses|
      && (WellFormed(db) ==> SumOf(TitleCountOf, d.coursesAnnotated) == d.count)
  {
    DemoListingsAgree(db);
    DemoOrderingsAgree(db);
    if WellFormed(db) {
      var rows := Annotate(db.courses, db.courses, db.students);
      CountsCoverStudents(db.courses, db.courses, db.students);
      TitleCountsSum(rows);
    }
  }
}
