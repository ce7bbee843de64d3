/** Filter predicates over students: the lookups the views pass to
    `filter()` (`name__icontains`, `age__gt`, `age__gte`, `age__lt`,
    `age__lte`, `age__range`, `course_id`, `course__title`) and the `Q`
    combinators `&`, `|` and `~`, as one tagged datatype with one evaluator. */
module Predicates {
  import opened Text
  import opened Models

  datatype Pred =
    | All                                 // no filter at all
    | NameIContains(needle: string)       // name__icontains
    | AgeGt(n: int)                       // age__gt
    | AgeGte(n: int)                      // age__gte
    | AgeLt(n: int)                       // age__lt
    | AgeLte(n: int)                      // age__lte
    | AgeRange(lo: int, hi: int)          // age__range, both ends inclusive
    | CourseIs(id: nat)                   // course_id
    | CourseTitleIs(title: string)        // course__title, through the foreign key
    | And(left: Pred, right: Pred)
    | Or(left: Pred, right: Pred)
    | Not(operand: Pred)

  /** Whether student `s` satisfies `p`; `courses` resolves the foreign key. */
  predicate Eval(p: Pred, courses: seq<Course>, s: Student) {
    match p
    case All => true
    case NameIContains(needle) => IContains(s.name, needle)
    case AgeGt(n) => s.age > n
    case AgeGte(n) => s.age >= n
    case AgeLt(n) => s.age < n
    case AgeLte(n) => s.age <= n
    case AgeRange(lo, hi) => lo <= s.age <= hi
    case CourseIs(id) => s.course == id
    case CourseTitleIs(t) =>
      (match FindCourse(courses, s.course)
       case Some(c) => c.title == t
       case None => false)
    case And(l, r) => Eval(l, courses, s) && Eval(r, courses, s)
    case Or(l, r) => Eval(l, courses, s) || Eval(r, courses, s)
    case Not(q) => !Eval(q, courses, s)
  }

  /** `filter(p)`: the students satisfying `p`, each as often as in the input,
      in input order. */
  function Select(p: Pred, courses: seq<Course>, s: seq<Student>): (r: seq<Student>)
    ensures |r| <= |s|
    ensures forall x :: x in r <==> x in s && Eval(p, courses, x)
  {
    if |s| == 0 then []
    else
      var rest := Select(p, courses, s[1..]);
      assert s == [s[0]] + s[1..];
      if Eval(p, courses, s[0]) then [s[0]] + rest else rest
  }

  /** One step of `filter()`: the head if it passes, then the rest filtered. */
  lemma SelectHead(p: Pred, courses: seq<Course>, s: seq<Student>)
    requires |s| > 0
    ensures Select(p, courses, s) == (if Eval(p, courses, s[0]) then [s[0]] else []) + Select(p, courses, s[1..])
  {
  }

  /** `filter()` keeps each student at most as often as the input has it. */
  lemma {:induction false} SelectSubMultiset(p: Pred, courses: seq<Course>, s: seq<Student>)
    ensures multiset(Select(p, courses, s)) <= multiset(s)
    decreases |s|
  {
    if |s| > 0 {
      SelectSubMultiset(p, courses, s[1..]);
      SelectHead(p, courses, s);
      assert s == [s[0]] + s[1..];
    }
  }

  /** Several `filter()` calls in a row: each one narrows what the previous left. */
  function Chain(ps: seq<Pred>, courses: seq<Course>, s: seq<Student>): seq<Student>
    decreases |ps|
  {
    if |ps| == 0 then s else Chain(ps[1..], courses, Select(ps[0], courses, s))
  }

  /** The conjunction of a list of predicates; `All` when the list is empty. */
  function Conj(ps: seq<Pred>): Pred
    decreases |ps|
  {
    if |ps| == 0 then All else And(ps[0], Conj(ps[1..]))
  }

  lemma {:induction false} ConjMeaning(ps: seq<Pred>, courses: seq<Course>, x: Student)
    ensures Eval(Conj(ps), courses, x) <==> forall i :: 0 <= i < |ps| ==> Eval(ps[i], courses, x)
    decreases |ps|
  {
    if |ps| > 0 {
      ConjMeaning(ps[1..], courses, x);
      assert forall i :: 1 <= i < |ps| ==> ps[i] == ps[1..][i - 1];
    }
  }

  /** Filtering by `p` and then by `q` is filtering once by `p AND q`. */
  lemma {:induction false} SelectSelect(p: Pred, q: Pred, courses: seq<Course>, s: seq<Student>)
    ensures Select(q, courses, Select(p, courses, s)) == Select(And(p, q), courses, s)
    decreases |s|
  {
    if |s| > 0 {
      SelectSelect(p, q, courses, s[1..]);
    }
  }

  /** Two predicates that agree on every student of `s` select the same students. */
  lemma {:induction false} SelectExtensional(p: Pred, q: Pred, courses: seq<Course>, s: seq<Student>)
    requires forall i :: 0 <= i < |s| ==> (Eval(p, courses, s[i]) <==> Eval(q, courses, s[i]))
    ensures Select(p, courses, s) == Select(q, courses, s)
    decreases |s|
  {
    if |s| > 0 {
      assert forall i :: 1 <= i < |s| ==> s[1..][i - 1] == s[i];
      SelectExtensional(p, q, courses, s[1..]);
    }
  }

  /** Consecutive filters commute. */
  lemma SelectCommutes(p: Pred, q: Pred, courses: seq<Course>, s: seq<Student>)
    ensures Select(q, courses, Select(p, courses, s)) == Select(p, courses, Select(q, courses, s))
  {
    SelectSelect(p, q, courses, s);
    SelectSelect(q, p, courses, s);
    SelectExtensional(And(p, q), And(q, p), courses, s);
  }

  /** Applying filters one after another is filtering by their conjunction. */
  lemma {:induction false} ChainIsConj(ps: seq<Pred>, courses: seq<Course>, s: seq<Student>)
    ensures Chain(ps, courses, s) == Select(Conj(ps), courses, s)
    decreases |ps|
  {
    if |ps| == 0 {
      SelectExtensional(All, All, courses, s);
      SelectAllIsIdentity(courses, s);
    } else {
      ChainIsConj(ps[1..], courses, Select(ps[0], courses, s));
      SelectSelect(ps[0], Conj(ps[1..]), courses, s);
    }
  }

  lemma {:induction false} SelectAllIsIdentity(courses: seq<Course>, s: seq<Student>)
    ensures Select(All, courses, s) == s
    decreases |s|
  {
    if |s| > 0 {
      SelectAllIsIdentity(courses, s[1..]);
    }
  }

  /** Conjunctions of the same predicates, however listed, agree on every student. */
  lemma ConjSameMembers(ps: seq<Pred>, qs: seq<Pred>, courses: seq<Course>, x: Student)
    requires forall p :: p in ps <==> p in qs
    ensures Eval(Conj(ps), courses, x) <==> Eval(Conj(qs), courses, x)
  {
    ConjMeaning(ps, courses, x);
    ConjMeaning(qs, courses, x);
    if Eval(Conj(ps), courses, x) {
      forall j | 0 <= j < |qs| ensures Eval(qs[j], courses, x) {
        assert qs[j] in qs;
        var i :| 0 <= i < |ps| && ps[i] == qs[j];
      }
    }
    if Eval(Conj(qs), courses, x) {
      forall j | 0 <= j < |ps| ensures Eval(ps[j], courses, x) {
        assert ps[j] in ps;
        var i :| 0 <= i < |qs| && qs[i] == ps[j];
      }
    }
  }

  /** The order in which the active filters are listed (and so applied) does
      not change the result. */
  lemma FilterOrderIrrelevant(ps: seq<Pred>, qs: seq<Pred>, courses: seq<Course>, s: seq<Student>)
    requires multiset(ps) == multiset(qs)
    ensures Chain(ps, courses, s) == Chain(qs, courses, s)
  {
    ChainIsConj(ps, courses, s);
    ChainIsConj(qs, courses, s);
    assert forall p :: p in ps <==> p in multiset(ps);
    assert forall p :: p in qs <==> p in multiset(qs);
    forall i | 0 <= i < |s|
      ensures Eval(Conj(ps), courses, s[i]) <==> Eval(Conj(qs), courses, s[i])
    {
      ConjSameMembers(ps, qs, courses, s[i]);
    }
    SelectExtensional(Conj(ps), Conj(qs), courses, s);
  }

  /** A predicate every student satisfies keeps the whole sequence, in order. */
  lemma {:induction false} SelectKeepsAll(p: Pred, courses: seq<Course>, s: seq<Student>)
    requires forall x :: x in s ==> Eval(p, courses, x)
    ensures Select(p, courses, s) == s
    decreases |s|
  {
    if |s| > 0 {
      assert forall x :: x in s[1..] ==> x in s;
      SelectKeepsAll(p, courses, s[1..]);
      SelectHead(p, courses, s);
      assert s[0] in s;
      assert s == [s[0]] + s[1..];
    }
  }

  /** A predicate no student satisfies keeps none. */
  lemma {:induction false} SelectDropsAll(p: Pred, courses: seq<Course>, s: seq<Student>)
    requires forall x :: x in s ==> !Eval(p, courses, x)
    ensures Select(p, courses, s) == []
    decreases |s|
  {
    if |s| > 0 {
      assert forall x :: x in s[1..] ==> x in s;
      SelectDropsAll(p, courses, s[1..]);
      SelectHead(p, courses, s);
      assert s[0] in s;
    }
  }

  /** `p OR NOT p` keeps every student. */
  lemma TautologyKeepsAll(p: Pred, courses: seq<Course>, s: seq<Student>)
    ensures Select(Or(p, Not(p)), courses, s) == s
  {
    SelectKeepsAll(Or(p, Not(p)), courses, s);
  }

  /** `p AND NOT p` keeps none. */
  lemma ContradictionKeepsNone(p: Pred, courses: seq<Course>, s: seq<Student>)
    ensures Select(And(p, Not(p)), courses, s) == []
  {
    var r := Select(And(p, Not(p)), courses, s);
    if |r| > 0 {
      assert r[0] in r;
      assert !Eval(And(p, Not(p)), courses, r[0]);
    }
  }

  /** Every student is kept by exactly one of `p` and `NOT p`. */
  lemma {:induction false} SelectPartition(p: Pred, courses: seq<Course>, s: seq<Student>)
    ensures |Select(p, courses, s)| + |Select(Not(p), courses, s)| == |s|
    decreases |s|
  {
    if |s| > 0 {
      SelectPartition(p, courses, s[1..]);
    }
  }

  /** The head step of `SelectAppend`: filtering `a + b` starts with `a`'s head. */
  lemma SelectAppendHead(p: Pred, courses: seq<Course>, a: seq<Student>, b: seq<Student>)
    requires |a| > 0
    ensures Select(p, courses, a + b) == (if Eval(p, courses, a[0]) then [a[0]] else []) + Select(p, courses, a[1..] + b)
  {
    assert (a + b)[0] == a[0];
    assert (a + b)[1..] == a[1..] + b;
    SelectHead(p, courses, a + b);
  }

  lemma {:induction false} SelectAppend(p: Pred, courses: seq<Course>, a: seq<Student>, b: seq<Student>)
    ensures Select(p, courses, a + b) == Select(p, courses, a) + Select(p, courses, b)
    decreases |a|
  {
    if |a| > 0 {
      var h := if Eval(p, courses, a[0]) then [a[0]] else [];
      var tail := Select(p, courses, a[1..]);
      var rest := Select(p, courses, b);
      calc {
        Select(p, courses, a + b);
      == { SelectAppendHead(p, courses, a, b); }
        h + Select(p, courses, a[1..] + b);
      == { SelectAppend(p, courses, a[1..], b); }
        h + (tail + rest);
      == { assert h + (tail + rest) == (h + tail) + rest; }
        (h + tail) + rest;
      == { SelectHead(p, courses, a); }
        Select(p, courses, a) + rest;
      }
    } else {
      assert a + b == b;
    }
  }

  /** `.exists()`: some student satisfies `p`. */
  function Exists(p: Pred, courses: seq<Course>, s: seq<Student>): (b: bool)
    ensures b <==> exists i :: 0 <= i < |s| && Eval(p, courses, s[i])
  {
    var r := Select(p, courses, s);
    if |r| > 0 then
      assert r[0] in s;
      true
    else
      assert forall i :: 0 <= i < |s| ==> s[i] !in r;
      false
  }
}
