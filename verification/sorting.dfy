/** `order_by()`: a stable sort of a sequence by a key, ascending or
    descending. Keys are numbers (`age`) or strings (`name`,
    `course__title`); strings compare code point by code point, as a binary
    collation does. */
module Sorting {
  import opened Models

  datatype Key = Num(n: int) | Str(s: string)

  /** Lexicographic order on strings: a proper prefix comes first. */
  predicate StrLe(a: string, b: string)
    decreases |a|
  {
    |a| == 0 || (|b| > 0 && (a[0] < b[0] || (a[0] == b[0] && StrLe(a[1..], b[1..]))))
  }

  lemma {:induction false} StrLeReflexive(a: string)
    ensures StrLe(a, a)
    decreases |a|
  {
    if |a| > 0 {
      StrLeReflexive(a[1..]);
    }
  }

  lemma {:induction false} StrLeTotal(a: string, b: string)
    ensures StrLe(a, b) || StrLe(b, a)
    decreases |a|
  {
    if |a| > 0 && |b| > 0 && a[0] == b[0] {
      StrLeTotal(a[1..], b[1..]);
    }
  }

  lemma {:induction false} StrLeTransitive(a: string, b: string, c: string)
    requires StrLe(a, b) && StrLe(b, c)
    ensures StrLe(a, c)
    decreases |a|
  {
    if |a| > 0 && a[0] == b[0] && b[0] == c[0] {
      StrLeTransitive(a[1..], b[1..], c[1..]);
    }
  }

  lemma {:induction false} StrLeAntisymmetric(a: string, b: string)
    requires StrLe(a, b) && StrLe(b, a)
    ensures a == b
    decreases |a|
  {
    if |a| > 0 {
      StrLeAntisymmetric(a[1..], b[1..]);
      assert a == [a[0]] + a[1..] && b == [b[0]] + b[1..];
    }
  }

  /** Numbers sort before strings; the two never meet in one sort. */
  predicate KeyLe(a: Key, b: Key) {
    match (a, b)
    case (Num(x), Num(y)) => x <= y
    case (Str(x), Str(y)) => StrLe(x, y)
    case (Num(_), Str(_)) => true
    case (Str(_), Num(_)) => false
  }

  /** `KeyLe` is a total order on keys. */
  lemma KeyLeTotalOrder(a: Key, b: Key, c: Key)
    ensures KeyLe(a, a)
    ensures KeyLe(a, b) || KeyLe(b, a)
    ensures KeyLe(a, b) && KeyLe(b, c) ==> KeyLe(a, c)
    ensures KeyLe(a, b) && KeyLe(b, a) ==> a == b
  {
    if a.Str? {
      StrLeReflexive(a.s);
      if b.Str? {
        StrLeTotal(a.s, b.s);
        if StrLe(a.s, b.s) && StrLe(b.s, a.s) {
          StrLeAntisymmetric(a.s, b.s);
        }
        if c.Str? && StrLe(a.s, b.s) && StrLe(b.s, c.s) {
          StrLeTransitive(a.s, b.s, c.s);
        }
      }
    }
  }

  /** `a` may precede `b` in the result: ascending by key, or descending. */
  predicate Before<T>(key: T -> Key, desc: bool, a: T, b: T) {
    if desc then KeyLe(key(b), key(a)) else KeyLe(key(a), key(b))
  }

  lemma BeforeTotalOrder<T>(key: T -> Key, desc: bool, a: T, b: T, c: T)
    ensures Before(key, desc, a, a)
    ensures Before(key, desc, a, b) || Before(key, desc, b, a)
    ensures Before(key, desc, a, b) && Before(key, desc, b, c) ==> Before(key, desc, a, c)
  {
    KeyLeTotalOrder(key(a), key(b), key(c));
    KeyLeTotalOrder(key(c), key(b), key(a));
  }

  /** Non-decreasing in the key (non-increasing when descending). */
  predicate Sorted<T>(key: T -> Key, desc: bool, s: seq<T>) {
    forall i, j :: 0 <= i < j < |s| ==> Before(key, desc, s[i], s[j])
  }

  /** Puts `x` after every element it does not strictly precede. */
  function Insert<T(==)>(key: T -> Key, desc: bool, x: T, s: seq<T>): (r: seq<T>)
    ensures multiset(r) == multiset(s) + multiset{x}
    ensures |r| == |s| + 1
  {
    if |s| == 0 then [x]
    else if Before(key, desc, s[0], x) then
      assert s == [s[0]] + s[1..];
      [s[0]] + Insert(key, desc, x, s[1..])
    else [x] + s
  }

  /** An element that may precede every element of a sorted sequence keeps
      it sorted when put in front. */
  lemma ConsSorted<T>(key: T -> Key, desc: bool, y: T, t: seq<T>)
    requires Sorted(key, desc, t)
    requires forall j :: 0 <= j < |t| ==> Before(key, desc, y, t[j])
    ensures Sorted(key, desc, [y] + t)
  {
    forall i, j | 0 <= i < j < |[y] + t| ensures Before(key, desc, ([y] + t)[i], ([y] + t)[j]) {
      assert ([y] + t)[j] == t[j - 1];
      if i > 0 {
        assert ([y] + t)[i] == t[i - 1];
      }
    }
  }

  /** Every element of `Insert(x, s)` is `x` or an element of `s`. */
  lemma InsertFrom<T>(key: T -> Key, desc: bool, x: T, s: seq<T>, j: nat)
    requires j < |Insert(key, desc, x, s)|
    ensures Insert(key, desc, x, s)[j] == x || exists k :: 0 <= k < |s| && s[k] == Insert(key, desc, x, s)[j]
  {
    var t := Insert(key, desc, x, s);
    assert t[j] in multiset(t);
    if t[j] != x {
      assert t[j] in multiset(s);
    }
  }

  lemma {:induction false} InsertSorted<T>(key: T -> Key, desc: bool, x: T, s: seq<T>)
    requires Sorted(key, desc, s)
    ensures Sorted(key, desc, Insert(key, desc, x, s))
    decreases |s|
  {
    if |s| == 0 {
    } else if Before(key, desc, s[0], x) {
      var t := Insert(key, desc, x, s[1..]);
      SortedTail(key, desc, s);
      InsertSorted(key, desc, x, s[1..]);
      forall j | 0 <= j < |t| ensures Before(key, desc, s[0], t[j]) {
        InsertFrom(key, desc, x, s[1..], j);
        if t[j] != x {
          var k :| 0 <= k < |s[1..]| && s[1..][k] == t[j];
          assert s[k + 1] == t[j];
        }
      }
      ConsSorted(key, desc, s[0], t);
      assert Insert(key, desc, x, s) == [s[0]] + t;
    } else {
      forall j | 0 <= j < |s| ensures Before(key, desc, x, s[j]) {
        BeforeTotalOrder(key, desc, x, s[0], s[j]);
      }
      ConsSorted(key, desc, x, s);
      assert Insert(key, desc, x, s) == [x] + s;
    }
  }

  /** `order_by(key)` (or `order_by('-key')` when `desc`): a sorted
      permutation of the input, built by inserting its elements in order. */
  function SortBy<T(==)>(key: T -> Key, desc: bool, s: seq<T>): (r: seq<T>)
    ensures multiset(r) == multiset(s)
    ensures |r| == |s|
    ensures Sorted(key, desc, r)
    decreases |s|
  {
    if |s| == 0 then []
    else
      var p := s[..|s| - 1];
      var r := Insert(key, desc, s[|s| - 1], SortBy(key, desc, p));
      InsertSorted(key, desc, s[|s| - 1], SortBy(key, desc, p));
      assert s == p + [s[|s| - 1]];
      r
  }

  /** The elements whose key equals `kv`, in order. */
  function Ties<T>(key: T -> Key, kv: Key, s: seq<T>): seq<T> {
    if |s| == 0 then []
    else (if key(s[0]) == kv then [s[0]] else []) + Ties(key, kv, s[1..])
  }

  /** One step of `Ties`: the head, if it ties, then the ties of the rest. */
  lemma TiesHead<T>(key: T -> Key, kv: Key, s: seq<T>)
    requires |s| > 0
    ensures Ties(key, kv, s) == (if key(s[0]) == kv then [s[0]] else []) + Ties(key, kv, s[1..])
  {
  }

  lemma {:induction false} TiesAppend<T>(key: T -> Key, kv: Key, a: seq<T>, b: seq<T>)
    ensures Ties(key, kv, a + b) == Ties(key, kv, a) + Ties(key, kv, b)
    decreases |a|
  {
    if |a| == 0 {
      assert a + b == b;
    } else {
      var head := if key(a[0]) == kv then [a[0]] else [];
      assert (a + b)[1..] == a[1..] + b;
      assert (a + b)[0] == a[0];
      TiesHead(key, kv, a + b);
      TiesHead(key, kv, a);
      TiesAppend(key, kv, a[1..], b);
      assert head + (Ties(key, kv, a[1..]) + Ties(key, kv, b)) == (head + Ties(key, kv, a[1..])) + Ties(key, kv, b);
    }
  }

  lemma {:induction false} NoTies<T>(key: T -> Key, kv: Key, s: seq<T>)
    requires forall j :: 0 <= j < |s| ==> key(s[j]) != kv
    ensures Ties(key, kv, s) == []
    decreases |s|
  {
    if |s| > 0 {
      NoTies(key, kv, s[1..]);
    }
  }

  lemma SortedTail<T>(key: T -> Key, desc: bool, s: seq<T>)
    requires |s| > 0 && Sorted(key, desc, s)
    ensures Sorted(key, desc, s[1..])
  {
    forall i, j | 0 <= i < j < |s[1..]| ensures Before(key, desc, s[1..][i], s[1..][j]) {
      assert s[1..][i] == s[i + 1] && s[1..][j] == s[j + 1];
    }
  }

  /** When `x` goes in front of a sorted `s`, no element of `s` has its key. */
  lemma NoTieBehind<T>(key: T -> Key, desc: bool, x: T, s: seq<T>)
    requires |s| > 0 && Sorted(key, desc, s) && !Before(key, desc, s[0], x)
    ensures forall j :: 0 <= j < |s| ==> key(s[j]) != key(x)
  {
    forall j | 0 <= j < |s| ensures key(s[j]) != key(x) {
      BeforeTotalOrder(key, desc, s[0], s[j], x);
      if j > 0 {
        assert Before(key, desc, s[0], s[j]);
      }
    }
  }

  lemma TiesCons<T>(key: T -> Key, kv: Key, y: T, t: seq<T>, s: seq<T>, extra: seq<T>)
    requires Ties(key, kv, t) == Ties(key, kv, s) + extra
    ensures Ties(key, kv, [y] + t) == Ties(key, kv, [y] + s) + extra
  {
    var head := if key(y) == kv then [y] else [];
    assert ([y] + t)[1..] == t;
    assert ([y] + s)[1..] == s;
    assert Ties(key, kv, [y] + t) == head + Ties(key, kv, t);
    assert Ties(key, kv, [y] + s) == head + Ties(key, kv, s);
    assert head + (Ties(key, kv, s) + extra) == (head + Ties(key, kv, s)) + extra;
  }

  lemma {:induction false} InsertTies<T>(key: T -> Key, desc: bool, kv: Key, x: T, s: seq<T>)
    requires Sorted(key, desc, s)
    ensures Ties(key, kv, Insert(key, desc, x, s)) == Ties(key, kv, s) + (if key(x) == kv then [x] else [])
    decreases |s|, 1
  {
    if |s| == 0 {
      assert Insert(key, desc, x, s) == [x];
      TiesSingle(key, kv, x);
    } else if Before(key, desc, s[0], x) {
      InsertTiesBehind(key, desc, kv, x, s);
    } else {
      InsertTiesFront(key, desc, kv, x, s);
    }
  }

  /** `x` goes behind the head: the ties of the head come first. */
  lemma {:induction false} InsertTiesBehind<T>(key: T -> Key, desc: bool, kv: Key, x: T, s: seq<T>)
    requires Sorted(key, desc, s) && |s| > 0 && Before(key, desc, s[0], x)
    ensures Ties(key, kv, Insert(key, desc, x, s)) == Ties(key, kv, s) + (if key(x) == kv then [x] else [])
    decreases |s|, 0
  {
    var t := Insert(key, desc, x, s[1..]);
    SortedTail(key, desc, s);
    InsertTies(key, desc, kv, x, s[1..]);
    TiesCons(key, kv, s[0], t, s[1..], if key(x) == kv then [x] else []);
    assert Insert(key, desc, x, s) == [s[0]] + t;
    assert [s[0]] + s[1..] == s;
  }

  /** `x` goes in front: nothing behind it ties with it. */
  lemma InsertTiesFront<T>(key: T -> Key, desc: bool, kv: Key, x: T, s: seq<T>)
    requires Sorted(key, desc, s) && |s| > 0 && !Before(key, desc, s[0], x)
    ensures Ties(key, kv, Insert(key, desc, x, s)) == Ties(key, kv, s) + (if key(x) == kv then [x] else [])
  {
    assert Insert(key, desc, x, s) == [x] + s;
    assert ([x] + s)[1..] == s;
    TiesHead(key, kv, [x] + s);
    if key(x) == kv {
      NoTieBehind(key, desc, x, s);
      NoTies(key, kv, s);
    }
  }

  lemma SortByStep<T>(key: T -> Key, desc: bool, s: seq<T>)
    requires |s| > 0
    ensures SortBy(key, desc, s) == Insert(key, desc, s[|s| - 1], SortBy(key, desc, s[..|s| - 1]))
  {}

  lemma TiesSingle<T>(key: T -> Key, kv: Key, x: T)
    ensures Ties(key, kv, [x]) == if key(x) == kv then [x] else []
  {}

  /** The sort is stable: elements with equal keys keep their input order. */
  lemma {:induction false} SortByStable<T>(key: T -> Key, desc: bool, kv: Key, s: seq<T>)
    ensures Ties(key, kv, SortBy(key, desc, s)) == Ties(key, kv, s)
    decreases |s|
  {
    if |s| > 0 {
      var p := s[..|s| - 1];
      var x := s[|s| - 1];
      var sp := SortBy(key, desc, p);
      var tx := if key(x) == kv then [x] else [];
      calc {
        Ties(key, kv, SortBy(key, desc, s));
        { SortByStep(key, desc, s); }
        Ties(key, kv, Insert(key, desc, x, sp));
        { InsertTies(key, desc, kv, x, sp); }
        Ties(key, kv, sp) + tx;
        { SortByStable(key, desc, kv, p); }
        Ties(key, kv, p) + tx;
        { TiesSingle(key, kv, x); TiesAppend(key, kv, p, [x]); }
        Ties(key, kv, p + [x]);
        { assert s == p + [x]; }
        Ties(key, kv, s);
      }
    }
  }

  // ---------------------------------------------------------------------------
  // The student keys `order_by` names

  function NameKey(s: Student): Key { Str(s.name) }
  function AgeKey(s: Student): Key { Num(s.age) }

  /** `course__title`: the title of the student's course, through the foreign key. */
  function TitleKey(courses: seq<Course>, s: Student): Key { Str(TitleOf(courses, s.course)) }
}
