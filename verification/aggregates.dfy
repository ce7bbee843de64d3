/** `aggregate()` and `annotate()`: count, maximum, minimum and sum of ages
    over a set of students, and the per-course student count that
    `annotate(student_count=Count('students'))` attaches to each course. */
module Aggregates {
  import opened Wrappers
  import opened Models
  import opened Predicates
  import opened Sorting
  import opened RecordStore

  /** The aggregate bundle. `Avg` is carried as the sum of ages (the average
      is `sumAge / total`); every field but `total` is absent over no students. */
  datatype Stats = Stats(total: nat, maxAge: Option<int>, minAge: Option<int>, sumAge: Option<int>)

  function AgeOf(s: Student): int { s.age }

  /** `Max('age')`: an upper bound of every age, reached by some student. */
  function MaxAge(s: seq<Student>): (r: Option<int>)
    ensures r.None? <==> |s| == 0
    ensures r.Some? ==> forall i :: 0 <= i < |s| ==> s[i].age <= r.value
    ensures r.Some? ==> exists i :: 0 <= i < |s| && s[i].age == r.value
  {
    if |s| == 0 then None
    else
      assert forall i :: 1 <= i < |s| ==> s[i] == s[1..][i - 1];
      match MaxAge(s[1..])
      case None => Some(s[0].age)
      case Some(m) => Some(if s[0].age >= m then s[0].age else m)
  }

  /** `Min('age')`: a lower bound of every age, reached by some student. */
  function MinAge(s: seq<Student>): (r: Option<int>)
    ensures r.None? <==> |s| == 0
    ensures r.Some? ==> forall i :: 0 <= i < |s| ==> r.value <= s[i].age
    ensures r.Some? ==> exists i :: 0 <= i < |s| && s[i].age == r.value
  {
    if |s| == 0 then None
    else
      assert forall i :: 1 <= i < |s| ==> s[i] == s[1..][i - 1];
      match MinAge(s[1..])
      case None => Some(s[0].age)
      case Some(m) => Some(if s[0].age <= m then s[0].age else m)
  }

  /** Sum of `f` over the sequence. */
  function SumOf<T>(f: T -> int, s: seq<T>): int {
    if |s| == 0 then 0 else f(s[0]) + SumOf(f, s[1..])
  }

  /** `aggregate(avg_age=Avg('age'), max_age=Max('age'), min_age=Min('age'), total=Count('id'))`. */
  function Aggregate(s: seq<Student>): (r: Stats)
    ensures r.total == |s|
    ensures r.total == 0 <==> r.maxAge.None?
    ensures r.total == 0 <==> r.minAge.None?
    ensures r.total == 0 <==> r.sumAge.None?
    ensures r.total > 0 ==> forall i :: 0 <= i < |s| ==> r.minAge.value <= s[i].age <= r.maxAge.value
    ensures r.sumAge.Some? ==> r.sumAge.value == SumOf(AgeOf, s)
  {
    Stats(|s|, MaxAge(s), MinAge(s), if |s| == 0 then None else Some(SumOf(AgeOf, s)))
  }

  lemma {:induction false} MulMonotone(n: nat, a: int, b: int)
    requires a <= b
    ensures n * a <= n * b
    decreases n
  {
    if n > 0 {
      MulMonotone(n - 1, a, b);
      assert n * a == (n - 1) * a + a && n * b == (n - 1) * b + b;
    }
  }

  lemma BoundsStep(n: nat, lo: int, hi: int, tlo: int, thi: int, x: int, rest: int)
    requires lo <= tlo && thi <= hi && lo <= x <= hi
    requires n * tlo <= rest <= n * thi
    ensures (n + 1) * lo <= x + rest <= (n + 1) * hi
  {
    MulMonotone(n, lo, tlo);
    MulMonotone(n, thi, hi);
    assert (n + 1) * lo == n * lo + lo;
    assert (n + 1) * hi == n * hi + hi;
  }

  /** The average the sum stands for lies between the minimum and the
      maximum: `total * min <= sum <= total * max`. */
  lemma {:induction false} AverageWithinBounds(s: seq<Student>)
    requires |s| > 0
    ensures |s| * MinAge(s).value <= SumOf(AgeOf, s) <= |s| * MaxAge(s).value
    decreases |s|
  {
    var lo, hi := MinAge(s).value, MaxAge(s).value;
    if |s| == 1 {
      assert SumOf(AgeOf, s) == s[0].age;
    } else {
      var t := s[1..];
      var n := |t|;
      AverageWithinBounds(t);
      assert forall i :: 0 <= i < |t| ==> t[i] == s[i + 1];
      var tlo, thi := MinAge(t).value, MaxAge(t).value;
      var j :| 0 <= j < n && t[j].age == tlo;
      var k :| 0 <= k < n && t[k].age == thi;
      assert lo <= tlo && thi <= hi;
      assert SumOf(AgeOf, s) == s[0].age + SumOf(AgeOf, t);
      BoundsStep(n, lo, hi, tlo, thi, s[0].age, SumOf(AgeOf, t));
    }
  }

  lemma {:induction false} SumOfAppend<T>(f: T -> int, a: seq<T>, b: seq<T>)
    ensures SumOf(f, a + b) == SumOf(f, a) + SumOf(f, b)
    decreases |a|
  {
    if |a| == 0 {
      assert a + b == b;
    } else {
      assert (a + b)[1..] == a[1..] + b;
      SumOfAppend(f, a[1..], b);
    }
  }

  lemma SumOfHead<T>(f: T -> int, s: seq<T>)
    requires |s| > 0
    ensures SumOf(f, s) == f(s[0]) + SumOf(f, s[1..])
  {
  }

  lemma {:induction false} SumOfInsert<T>(f: T -> int, key: T -> Key, desc: bool, x: T, s: seq<T>)
    ensures SumOf(f, Insert(key, desc, x, s)) == f(x) + SumOf(f, s)
    decreases |s|
  {
    if |s| > 0 && Before(key, desc, s[0], x) {
      var t := Insert(key, desc, x, s[1..]);
      SumOfInsert(f, key, desc, x, s[1..]);
      assert Insert(key, desc, x, s) == [s[0]] + t;
      assert ([s[0]] + t)[1..] == t;
      SumOfHead(f, [s[0]] + t);
      SumOfHead(f, s);
    } else if |s| > 0 {
      assert Insert(key, desc, x, s) == [x] + s;
      assert ([x] + s)[1..] == s;
      SumOfHead(f, [x] + s);
    }
  }

  /** Sorting does not change a sum. */
  lemma {:induction false} SumOfSortBy<T>(f: T -> int, key: T -> Key, desc: bool, s: seq<T>)
    ensures SumOf(f, SortBy(key, desc, s)) == SumOf(f, s)
    decreases |s|
  {
    if |s| > 0 {
      var p := s[..|s| - 1];
      var x := s[|s| - 1];
      calc {
        SumOf(f, SortBy(key, desc, s));
        { SortByStep(key, desc, s); }
        SumOf(f, Insert(key, desc, x, SortBy(key, desc, p)));
        { SumOfInsert(f, key, desc, x, SortBy(key, desc, p)); }
        f(x) + SumOf(f, SortBy(key, desc, p));
        { SumOfSortBy(f, key, desc, p); }
        f(x) + SumOf(f, p);
        { SumOfAppend(f, p, [x]); assert SumOf(f, [x]) == f(x); }
        SumOf(f, p + [x]);
        { assert s == p + [x]; }
        SumOf(f, s);
      }
    }
  }

  /** Max and min depend only on which students are present. */
  lemma MaxDependsOnMembers(a: seq<Student>, b: seq<Student>)
    requires forall x :: x in a <==> x in b
    ensures MaxAge(a) == MaxAge(b)
  {
    assert |a| > 0 ==> a[0] in b;
    assert |b| > 0 ==> b[0] in a;
    if |a| > 0 {
      var ma, mb := MaxAge(a).value, MaxAge(b).value;
      var i :| 0 <= i < |a| && a[i].age == ma;
      var j :| 0 <= j < |b| && b[j].age == mb;
      assert a[i] in b;
      var i2 :| 0 <= i2 < |b| && b[i2] == a[i];
      assert ma <= mb;
      assert b[j] in a;
      var j2 :| 0 <= j2 < |a| && a[j2] == b[j];
      assert mb <= ma;
    }
  }

  lemma MinDependsOnMembers(a: seq<Student>, b: seq<Student>)
    requires forall x :: x in a <==> x in b
    ensures MinAge(a) == MinAge(b)
  {
    assert |a| > 0 ==> a[0] in b;
    assert |b| > 0 ==> b[0] in a;
    if |a| > 0 {
      var ma, mb := MinAge(a).value, MinAge(b).value;
      var i :| 0 <= i < |a| && a[i].age == ma;
      var j :| 0 <= j < |b| && b[j].age == mb;
      assert a[i] in b;
      var i2 :| 0 <= i2 < |b| && b[i2] == a[i];
      assert ma >= mb;
      assert b[j] in a;
      var j2 :| 0 <= j2 < |a| && a[j2] == b[j];
      assert mb >= ma;
    }
  }

  /** The aggregates of a queryset do not depend on its `order_by`. */
  lemma AggregateOrderInvariant(key: Student -> Key, desc: bool, s: seq<Student>)
    ensures Aggregate(SortBy(key, desc, s)) == Aggregate(s)
  {
    var r := SortBy(key, desc, s);
    assert forall x :: x in r <==> x in multiset(r);
    assert forall x :: x in s <==> x in multiset(s);
    MaxDependsOnMembers(r, s);
    MinDependsOnMembers(r, s);
    SumOfSortBy(AgeOf, key, desc, s);
  }

  // ---------------------------------------------------------------------------
  // Per-course student counts

  /** A course annotated with the number of students referencing it. */
  datatype CourseRow = CourseRow(course: Course, studentCount: nat)

  function RowCount(r: CourseRow): int { r.studentCount }

  /** Each course of `cs` paired with its number of students in `students`. */
  function Rows(cs: seq<Course>, courses: seq<Course>, students: seq<Student>): seq<CourseRow> {
    if |cs| == 0 then []
    else [CourseRow(cs[0], |Select(CourseIs(cs[0].id), courses, students)|)] + Rows(cs[1..], courses, students)
  }

  lemma {:induction false} RowsAt(cs: seq<Course>, courses: seq<Course>, students: seq<Student>)
    ensures |Rows(cs, courses, students)| == |cs|
    ensures forall i :: 0 <= i < |cs| ==>
      Rows(cs, courses, students)[i] == CourseRow(cs[i], |Select(CourseIs(cs[i].id), courses, students)|)
    decreases |cs|
  {
    if |cs| > 0 {
      RowsAt(cs[1..], courses, students);
    }
  }

  /** `annotate(student_count=Count('students'))` over the courses `cs`,
      counting in the student table `students`: one row per course, in
      order, carrying the number of students whose key names it. */
  function Annotate(cs: seq<Course>, courses: seq<Course>, students: seq<Student>): (r: seq<CourseRow>)
    ensures |r| == |cs|
    ensures forall i :: 0 <= i < |cs| ==> r[i].course == cs[i]
    ensures forall i :: 0 <= i < |cs| ==>
      r[i].studentCount == |Select(CourseIs(cs[i].id), courses, students)|
  {
    RowsAt(cs, courses, students);
    Rows(cs, courses, students)
  }

  /** How many courses of `cs` carry the key `id`. */
  function CountId(cs: seq<Course>, id: nat): nat {
    if |cs| == 0 then 0 else (if cs[0].id == id then 1 else 0) + CountId(cs[1..], id)
  }

  lemma {:induction false} CountIdAbsent(cs: seq<Course>, id: nat)
    requires forall i :: 0 <= i < |cs| ==> cs[i].id != id
    ensures CountId(cs, id) == 0
    decreases |cs|
  {
    if |cs| > 0 {
      CountIdAbsent(cs[1..], id);
    }
  }

  /** With unique keys, an existing key is carried by exactly one course. */
  lemma {:induction false} CountIdUnique(cs: seq<Course>, id: nat)
    requires DistinctIds(CourseId, cs) && HasCourse(cs, id)
    ensures CountId(cs, id) == 1
    decreases |cs|
  {
    var t := cs[1..];
    assert forall i :: 0 <= i < |t| ==> t[i] == cs[i + 1];
    if cs[0].id == id {
      CountIdAbsent(t, id);
    } else {
      assert DistinctIds(CourseId, t);
      CountIdUnique(t, id);
    }
  }

  lemma {:induction false} RowsEmpty(cs: seq<Course>, courses: seq<Course>)
    ensures SumOf(RowCount, Rows(cs, courses, [])) == 0
    decreases |cs|
  {
    if |cs| > 0 {
      RowsEmpty(cs[1..], courses);
    }
  }

  /** One more student adds one to the count of every course carrying its key. */
  lemma {:induction false} RowsCons(cs: seq<Course>, courses: seq<Course>, x: Student, st: seq<Student>)
    ensures SumOf(RowCount, Rows(cs, courses, [x] + st))
         == SumOf(RowCount, Rows(cs, courses, st)) + CountId(cs, x.course)
    decreases |cs|
  {
    if |cs| > 0 {
      var id := cs[0].id;
      var one := if x.course == id then 1 else 0;
      calc {
        SumOf(RowCount, Rows(cs, courses, [x] + st));
        { RowsSumHead(cs, courses, [x] + st); }
        |Select(CourseIs(id), courses, [x] + st)| + SumOf(RowCount, Rows(cs[1..], courses, [x] + st));
        { SelectHead(CourseIs(id), courses, [x] + st); assert ([x] + st)[1..] == st; }
        one + |Select(CourseIs(id), courses, st)| + SumOf(RowCount, Rows(cs[1..], courses, [x] + st));
        { RowsCons(cs[1..], courses, x, st); }
        one + |Select(CourseIs(id), courses, st)| + SumOf(RowCount, Rows(cs[1..], courses, st)) + CountId(cs[1..], x.course);
        { RowsSumHead(cs, courses, st); }
        SumOf(RowCount, Rows(cs, courses, st)) + one + CountId(cs[1..], x.course);
      }
    }
  }

  /** The first course's count, then the sum over the other courses. */
  lemma RowsSumHead(cs: seq<Course>, courses: seq<Course>, st: seq<Student>)
    requires |cs| > 0
    ensures SumOf(RowCount, Rows(cs, courses, st))
         == |Select(CourseIs(cs[0].id), courses, st)| + SumOf(RowCount, Rows(cs[1..], courses, st))
  {
    var a := Rows(cs, courses, st);
    assert a[1..] == Rows(cs[1..], courses, st);
  }

  /** When every student's course is among `cs` and course keys are unique,
      the per-course counts add up to the number of students. */
  lemma {:induction false} CountsCoverStudents(cs: seq<Course>, courses: seq<Course>, st: seq<Student>)
    requires DistinctIds(CourseId, cs)
    requires forall i :: 0 <= i < |st| ==> HasCourse(cs, st[i].course)
    ensures SumOf(RowCount, Annotate(cs, courses, st)) == |st|
    decreases |st|
  {
    if |st| == 0 {
      RowsEmpty(cs, courses);
    } else {
      var t := st[1..];
      assert forall i :: 0 <= i < |t| ==> t[i] == st[i + 1];
      CountsCoverStudents(cs, courses, t);
      RowsCons(cs, courses, st[0], t);
      CountIdUnique(cs, st[0].course);
      assert st == [st[0]] + t;
    }
  }
}
