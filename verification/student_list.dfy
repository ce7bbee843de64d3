/** `student_list`: each query-string parameter that parses adds one
    lookup, the lookups narrow the store one after another, an allowed
    `order` sorts the result, and the page reports the count of the
    filtered students. */
module StudentListView {
  import opened Wrappers
  import opened Text
  import opened Models
  import opened Predicates
  import opened Sorting
  import opened RecordStore
  import opened Params

  /** `name__icontains` when the `name` parameter is not blank. */
  function NameFilter(q: StudentQuery): seq<Pred> {
    match NameParam(q.name)
    case Some(n) => [NameIContains(n)]
    case None => []
  }

  /** `age__gte` when `min_age` is all digits. */
  function MinAgeFilter(q: StudentQuery): seq<Pred> {
    match NumberParam(q.minAge)
    case Some(m) => [AgeGte(m)]
    case None => []
  }

  /** `age__lte` when `max_age` is all digits. */
  function MaxAgeFilter(q: StudentQuery): seq<Pred> {
    match NumberParam(q.maxAge)
    case Some(m) => [AgeLte(m)]
    case None => []
  }

  /** `course_id` when `course` is all digits. */
  function CourseFilter(q: StudentQuery): seq<Pred> {
    match NumberParam(q.course)
    case Some(c) => [CourseIs(c)]
    case None => []
  }

  /** The lookups in the order the view adds them. */
  function ActiveFilters(q: StudentQuery): seq<Pred> {
    NameFilter(q) + MinAgeFilter(q) + MaxAgeFilter(q) + CourseFilter(q)
  }

  /** A lookup is added exactly when its parameter parses, and carries the
      parsed value; at most one lookup per parameter. */
  lemma ActiveFiltersListed(q: StudentQuery)
    ensures |ActiveFilters(q)| <= 4
    ensures forall n :: NameIContains(n) in ActiveFilters(q) <==> NameParam(q.name) == Some(n)
    ensures forall m: int :: AgeGte(m) in ActiveFilters(q) <==> (m >= 0 && NumberParam(q.minAge) == Some(m))
    ensures forall m: int :: AgeLte(m) in ActiveFilters(q) <==> (m >= 0 && NumberParam(q.maxAge) == Some(m))
    ensures forall c: nat :: CourseIs(c) in ActiveFilters(q) <==> NumberParam(q.course) == Some(c)
  {
    var a, b, c, d := NameFilter(q), MinAgeFilter(q), MaxAgeFilter(q), CourseFilter(q);
    assert ActiveFilters(q) == a + b + c + d;
    assert forall p :: p in ActiveFilters(q) <==> p in a || p in b || p in c || p in d;
  }

  /** What the student list promises of each student it shows, read straight
      off the parameters: every parameter that parses constrains the student,
      the others are ignored. */
  predicate Admits(q: StudentQuery, x: Student) {
    && (match NameParam(q.name) case Some(n) => IContains(x.name, n) case None => true)
    && (match NumberParam(q.minAge) case Some(m) => x.age >= m case None => true)
    && (match NumberParam(q.maxAge) case Some(m) => x.age <= m case None => true)
    && (match NumberParam(q.course) case Some(c) => x.course == c case None => true)
  }

  /** Every lookup of `ps` holds of `x`. */
  predicate AllHold(ps: seq<Pred>, courses: seq<Course>, x: Student) {
    forall i :: 0 <= i < |ps| ==> Eval(ps[i], courses, x)
  }

  lemma AllHoldAppend(a: seq<Pred>, b: seq<Pred>, courses: seq<Course>, x: Student)
    ensures AllHold(a + b, courses, x) <==> AllHold(a, courses, x) && AllHold(b, courses, x)
  {
    if AllHold(a, courses, x) && AllHold(b, courses, x) {
      forall i | 0 <= i < |a + b| ensures Eval((a + b)[i], courses, x) {
        if i >= |a| { assert (a + b)[i] == b[i - |a|]; }
      }
    }
    if AllHold(a + b, courses, x) {
      forall i | 0 <= i < |b| ensures Eval(b[i], courses, x) {
        assert (a + b)[|a| + i] == b[i];
      }
      forall i | 0 <= i < |a| ensures Eval(a[i], courses, x) {
        assert (a + b)[i] == a[i];
      }
    }
  }

  /** Each parameter's lookups hold exactly when its part of `Admits` does. */
  lemma NameFilterMeaning(q: StudentQuery, courses: seq<Course>, x: Student)
    ensures AllHold(NameFilter(q), courses, x) <==>
      (match NameParam(q.name) case Some(n) => IContains(x.name, n) case None => true)
  {
    if NameParam(q.name).Some? { assert NameFilter(q)[0] == NameIContains(NameParam(q.name).value); }
  }

  lemma MinAgeFilterMeaning(q: StudentQuery, courses: seq<Course>, x: Student)
    ensures AllHold(MinAgeFilter(q), courses, x) <==>
      (match NumberParam(q.minAge) case Some(m) => x.age >= m case None => true)
  {
    if NumberParam(q.minAge).Some? { assert MinAgeFilter(q)[0] == AgeGte(NumberParam(q.minAge).value); }
  }

  lemma MaxAgeFilterMeaning(q: StudentQuery, courses: seq<Course>, x: Student)
    ensures AllHold(MaxAgeFilter(q), courses, x) <==>
      (match NumberParam(q.maxAge) case Some(m) => x.age <= m case None => true)
  {
    if NumberParam(q.maxAge).Some? { assert MaxAgeFilter(q)[0] == AgeLte(NumberParam(q.maxAge).value); }
  }

  lemma CourseFilterMeaning(q: StudentQuery, courses: seq<Course>, x: Student)
    ensures AllHold(CourseFilter(q), courses, x) <==>
      (match NumberParam(q.course) case Some(c) => x.course == c case None => true)
  {
    if NumberParam(q.course).Some? { assert CourseFilter(q)[0] == CourseIs(NumberParam(q.course).value); }
  }

  /** The conjunction of the added lookups is exactly `Admits`. */
  lemma ActiveFiltersMeaning(q: StudentQuery, courses: seq<Course>, x: Student)
    ensures Eval(Conj(ActiveFilters(q)), courses, x) <==> Admits(q, x)
  {
    var a, b, c, d := NameFilter(q), MinAgeFilter(q), MaxAgeFilter(q), CourseFilter(q);
    ConjMeaning(ActiveFilters(q), courses, x);
    AllHoldAppend(a + b + c, d, courses, x);
    AllHoldAppend(a + b, c, courses, x);
    AllHoldAppend(a, b, courses, x);
    NameFilterMeaning(q, courses, x);
    MinAgeFilterMeaning(q, courses, x);
    MaxAgeFilterMeaning(q, courses, x);
    CourseFilterMeaning(q, courses, x);
  }

  /** The sort key each allowed order names. */
  function StudentKey(k: OrderKey, courses: seq<Course>): Student -> Key {
    match k
    case ByName => NameKey
    case ByNameDesc => NameKey
    case ByAge => AgeKey
    case ByAgeDesc => AgeKey
    case ByCourseTitle => (s: Student) => TitleKey(courses, s)
  }

  /** The students meeting every lookup, in store order. */
  function Matching(db: Db, q: StudentQuery): seq<Student> {
    Select(Conj(ActiveFilters(q)), db.courses, db.students)
  }

  datatype StudentListPage = StudentListPage(students: seq<Student>, count: nat)

  /** The page: the filtered students, sorted when `order` is allowed and
      left in store order otherwise, with their count. */
  function StudentList(db: Db, q: StudentQuery): (r: StudentListPage)
    ensures forall x :: x in r.students <==> x in db.students && Admits(q, x)
    ensures multiset(r.students) == multiset(Matching(db, q))
    ensures r.count == |r.students|
    ensures OrderParam(q.order).None? ==> r.students == Matching(db, q)
    ensures OrderParam(q.order).Some? ==>
      Sorted(StudentKey(OrderParam(q.order).value, db.courses), IsDescending(OrderParam(q.order).value), r.students)
  {
    var filtered := Chain(ActiveFilters(q), db.courses, db.students);
    ChainIsConj(ActiveFilters(q), db.courses, db.students);
    forall x ensures Eval(Conj(ActiveFilters(q)), db.courses, x) <==> Admits(q, x) {
      ActiveFiltersMeaning(q, db.courses, x);
    }
    var ordered :=
      match OrderParam(q.order)
      case Some(k) => SortBy(StudentKey(k, db.courses), IsDescending(k), filtered)
      case None => filtered;
    assert forall x :: x in ordered <==> x in multiset(ordered);
    assert forall x :: x in filtered <==> x in multiset(filtered);
    StudentListPage(ordered, |filtered|)
  }

  /** Sorted by `NameKey`: names in lexicographic order. */
  lemma NameOrder(desc: bool, s: seq<Student>)
    requires Sorted(NameKey, desc, s)
    ensures forall i, j :: 0 <= i < j < |s| ==>
      if desc then StrLe(s[j].name, s[i].name) else StrLe(s[i].name, s[j].name)
  {
    forall i, j | 0 <= i < j < |s|
      ensures if desc then StrLe(s[j].name, s[i].name) else StrLe(s[i].name, s[j].name)
    {
      assert Before(NameKey, desc, s[i], s[j]);
    }
  }

  /** Sorted by `AgeKey`: ages non-decreasing, or non-increasing. */
  lemma AgeOrder(desc: bool, s: seq<Student>)
    requires Sorted(AgeKey, desc, s)
    ensures forall i, j :: 0 <= i < j < |s| ==> if desc then s[j].age <= s[i].age else s[i].age <= s[j].age
  {
    forall i, j | 0 <= i < j < |s| ensures if desc then s[j].age <= s[i].age else s[i].age <= s[j].age {
      assert Before(AgeKey, desc, s[i], s[j]);
    }
  }

  /** Sorted by course title: titles in lexicographic order. */
  lemma TitleOrder(courses: seq<Course>, s: seq<Student>)
    requires Sorted((x: Student) => TitleKey(courses, x), false, s)
    ensures forall i, j :: 0 <= i < j < |s| ==> StrLe(TitleOf(courses, s[i].course), TitleOf(courses, s[j].course))
  {
    forall i, j | 0 <= i < j < |s| ensures StrLe(TitleOf(courses, s[i].course), TitleOf(courses, s[j].course)) {
      assert Before((x: Student) => TitleKey(courses, x), false, s[i], s[j]);
    }
  }

  /** With no `order`, or `order=name`, the page runs by name. */
  lemma StudentListByName(db: Db, q: StudentQuery)
    requires q.order.None? || q.order == Some("name")
    ensures var s := StudentList(db, q).students;
      forall i, j :: 0 <= i < j < |s| ==> StrLe(s[i].name, s[j].name)
  {
    assert OrderParam(q.order) == Some(ByName);
    NameOrder(false, StudentList(db, q).students);
  }

  lemma StudentListByNameDesc(db: Db, q: StudentQuery)
    requires q.order == Some("-name")
    ensures var s := StudentList(db, q).students;
      forall i, j :: 0 <= i < j < |s| ==> StrLe(s[j].name, s[i].name)
  {
    assert OrderParam(q.order) == Some(ByNameDesc);
    NameOrder(true, StudentList(db, q).students);
  }

  lemma StudentListByAge(db: Db, q: StudentQuery)
    requires q.order == Some("age")
    ensures var s := StudentList(db, q).students;
      forall i, j :: 0 <= i < j < |s| ==> s[i].age <= s[j].age
  {
    assert OrderParam(q.order) == Some(ByAge);
    AgeOrder(false, StudentList(db, q).students);
  }

  lemma StudentListByAgeDesc(db: Db, q: StudentQuery)
    requires q.order == Some("-age")
    ensures var s := StudentList(db, q).students;
      forall i, j :: 0 <= i < j < |s| ==> s[i].age >= s[j].age
  {
    assert OrderParam(q.order) == Some(ByAgeDesc);
    AgeOrder(true, StudentList(db, q).students);
  }

  lemma StudentListByTitle(db: Db, q: StudentQuery)
    requires q.order == Some("course__title")
    ensures var s := StudentList(db, q).students;
      forall i, j :: 0 <= i < j < |s| ==> StrLe(TitleOf(db.courses, s[i].course), TitleOf(db.courses, s[j].course))
  {
    assert OrderParam(q.order) == Some(ByCourseTitle);
    TitleOrder(db.courses, StudentList(db, q).students);
  }

  /** Applying the lookups in any other order gives the same students. */
  lemma StudentListFilterOrderIrrelevant(db: Db, q: StudentQuery, ps: seq<Pred>)
    requires multiset(ps) == multiset(ActiveFilters(q))
    ensures Chain(ps, db.courses, db.students) == Matching(db, q)
  {
    FilterOrderIrrelevant(ps, ActiveFilters(q), db.courses, db.students);
    ChainIsConj(ActiveFilters(q), db.courses, db.students);
  }

  /** A `min_age` above every stored age shows an empty page, whatever the
      size of a bound that reads as a number; past 64 bits this is what
      Django does from version 5.0 on. */
  lemma MinAgeBeyondEveryAge(db: Db, q: StudentQuery)
    requires NumberParam(q.minAge).Some?
    requires forall x :: x in db.students ==> x.age < NumberParam(q.minAge).value
    ensures StudentList(db, q).students == [] && StudentList(db, q).count == 0
  {
    forall x | x in db.students ensures !Eval(Conj(ActiveFilters(q)), db.courses, x) {
      ActiveFiltersMeaning(q, db.courses, x);
    }
    SelectDropsAll(Conj(ActiveFilters(q)), db.courses, db.students);
    assert |multiset(StudentList(db, q).students)| == 0;
  }

  /** A `max_age` at or above every stored age, as the only lookup, keeps the
      whole store in store order, whatever the size of a bound that reads as
      a number; past 64 bits this is what Django does from version 5.0 on. */
  lemma MaxAgeBeyondEveryAge(db: Db, q: StudentQuery)
    requires NameParam(q.name).None? && NumberParam(q.minAge).None? && NumberParam(q.course).None?
    requires NumberParam(q.maxAge).Some?
    requires forall x :: x in db.students ==> x.age <= NumberParam(q.maxAge).value
    ensures Matching(db, q) == db.students
  {
    forall x | x in db.students ensures Eval(Conj(ActiveFilters(q)), db.courses, x) {
      ActiveFiltersMeaning(q, db.courses, x);
    }
    SelectKeepsAll(Conj(ActiveFilters(q)), db.courses, db.students);
  }
}
