# Course/Student query layer — a Dafny model

This project models the query layer of a small Django teaching application
with two tables. A `Course` has a title and a description. A `Student` has a
name, an age, an email and a non-null foreign key to one course, with
`on_delete=CASCADE` and the reverse relation `course.students`. The views read
the tables through the ORM:

- `student_list` strips the query-string parameters `name`, `min_age`,
  `max_age` and `course`. It turns each one that parses into a lookup
  (`name__icontains`, `age__gte`, `age__lte`, `course_id`) and narrows the
  students with these lookups one after another. It sorts by `order` when
  that value is on a five-entry allow-list, and reports the count.
- `course_list` annotates every course with its number of students and
  orders the courses by title.
- `course_detail` returns one course (a 404 when the key is unknown), its
  students ordered by name, and their `Avg`/`Max`/`Min`/`Count` of age.
- `queryset_demo` shows reads, `values()` projections, the lookups `age__gt`,
  `name__icontains`, `age__range`, the `Q` combinations `|` and `~`,
  `aggregate`, `annotate`, `values_list(flat=True)`, `exists()` and
  `order_by('age')` / `order_by('-age')` over the whole table.

The model keeps the tables as sequences of immutable records in table order
(`RecordStore.Db`). Every view is a pure function of the store and of the
request parameters. Modules, in dependency order:

- `Wrappers`: `Option` and `Result`.
- `Text`: Python's `str.strip()`, `str.isdecimal()` with `int()` over the
  decimal digits of every script and within its 4300-digit limit, `str()`,
  and `icontains` with ASCII case folding.
- `Models`: the record shapes, their field defaults and their `__str__`
  formats.
- `Predicates`: the lookups and `Q` combinators as one `Pred` datatype with
  one evaluator `Eval`, and `filter()` as `Select`.
- `Sorting`: `order_by` as a stable insertion sort over an integer or string
  key.
- `RecordStore`: the store invariant (unique keys, every foreign key names
  an existing course), lookups, inserts, updates, and deletes with the
  cascade.
- `Aggregates`: count, maximum, minimum and sum of ages, and the per-course
  `annotate` count.
- `Params`: reading the query-string parameters.
- `StudentListView`, `CourseViews`, `QuerysetDemo`: the four views.
- `SeedData`: the rows of the `seed` management command, with the facts the
  views report over them.

Some choices the framework leaves open are fixed here:

- Strings compare code point by code point, as a binary collation does.
- `icontains` folds ASCII letters only, as SQLite's `LIKE` does.
- Rows with equal sort keys keep their table order, and this stability is
  proved (`Sorting.SortByStable`). The database does not promise any order
  for ties.

Over the seed rows, `age__range=(18, 23)` keeps five students: John, Sara,
Maria, Carlos and Aisha. James is 17 and the range is inclusive at both ends,
so he is out.

## Model

| member | source | states |
|---|---|---|
| Text.StripSpec | django_queryset_project/main/views.py:30 | `strip()` returns a contiguous slice of the input. Everything cut away is whitespace, and the result neither starts nor ends with whitespace. |
| Text.StripIdempotent | django_queryset_project/main/views.py:30 | Stripping an already stripped parameter changes nothing. |
| Text.ParseNat | django_queryset_project/main/views.py:36-37 | `int()` behind an `isdecimal()` guard yields a number exactly when the text is a non-empty run of decimal digits, of any script (Arabic-Indic `٣` reads 3, as `int()` reads it), of at most 4300 digits, leading zeros included. A longer run gives no number, since there `int()` raises. |
| Text.NatToString | django_queryset_project/main/models.py:21 | `str(n)` of a non-negative number is a non-empty run of ASCII digits with no leading zero. |
| Text.IntToString | django_queryset_project/main/models.py:21 | `str(i)` starts with `-` exactly when `i` is negative. The rest is a run of ASCII digits with no leading zero. |
| Text.NatToStringRoundTrip | django_queryset_project/main/views.py:36-37 | A number that `str()` can print (at most 4300 digits) parses back to itself. |
| Text.NatToStringValue | django_queryset_project/main/models.py:21 | The digits `str()` prints for a number have that number as their base-10 value, at any length. |
| Text.NatToStringBeyondLimit | django_queryset_project/main/views.py:36-37 | A number of more than 4300 digits does not read back from its printing, as `int()` raises there. |
| Text.CanonicalDigitsRoundTrip | django_queryset_project/main/views.py:36-37 | An ASCII digit string without a leading zero is the printing of its own value, so parsing and printing are inverse on canonical spellings. |
| Text.IntToStringParse | django_queryset_project/main/models.py:21 | A printable age parses back as itself when it is non-negative. A negative one does not parse, because of its sign, and the digits after the sign read back as its magnitude. |
| Text.IntToStringValue | django_queryset_project/main/models.py:21 | The digits of a printed integer, after the sign of a negative one, have its magnitude as their value. |
| Text.Contains | django_queryset_project/main/views.py:32 | The scan finds the needle exactly when it occurs at some index of the haystack. |
| Text.IContains | django_queryset_project/main/views.py:32 | `name__icontains` (here and in the demo's `name__icontains='a'`) is containment after ASCII lower-casing of both sides; what that means character by character is stated by `Text.IContainsMeaning`. |
| Text.IContainsMeaning | django_queryset_project/main/views.py:32 | `icontains` holds exactly when some window of the name matches the needle character by character, ASCII case ignored. |
| Models.NewCourse | django_queryset_project/main/models.py:4-7 | A new course keeps its title. Its description is the empty string when none is supplied. |
| Models.NewStudent | django_queryset_project/main/models.py:13-18 | A new student keeps its name, age and course. Its email is the empty string when none is supplied. |
| Models.CourseDisplay | django_queryset_project/main/models.py:9-10 | A course is displayed as exactly its title. |
| Models.StudentDisplay | django_queryset_project/main/models.py:20-21 | A student is displayed as its name, then ` (age `, then the age, then `)`. A non-negative age is ASCII digits with no leading zero whose value is the age. A negative one is `-` followed by such digits, whose value is its magnitude. |
| Models.FindCourse | django_queryset_project/main/models.py:17 | Resolving a foreign key finds a course exactly when one has that key, and the course found has it. |
| Predicates.Eval | django_queryset_project/main/views.py:32-47 | Each lookup and `Q` combination, here and in the demo's filters, holds of a student as its Django meaning says. The contracts carrying this are `StudentListView.ActiveFiltersMeaning`, `Predicates.ConjMeaning` and the `QuerysetDemo.*Rows` functions. |
| Predicates.Select | django_queryset_project/main/views.py:32 | `filter(p)` keeps exactly the students satisfying `p` and never more students than it is given. |
| Predicates.SelectSubMultiset | django_queryset_project/main/views.py:32 | `filter(p)` keeps each student at most as often as the table holds it. |
| Predicates.ConjMeaning | django_queryset_project/main/views.py:27-47 | The conjunction of a list of lookups holds exactly when every lookup of the list holds. |
| Predicates.SelectSelect | django_queryset_project/main/views.py:32-37 | Filtering twice in a row equals filtering once by the conjunction of the two lookups. |
| Predicates.ChainIsConj | django_queryset_project/main/views.py:27-47 | Applying a list of lookups one after another equals one filter by their conjunction. |
| Predicates.SelectCommutes | django_queryset_project/main/views.py:27-47 | Two filters applied in either order give the same students in the same order. |
| Predicates.FilterOrderIrrelevant | django_queryset_project/main/views.py:27-47 | Any rearrangement of the same lookups, applied one after another, selects the same sequence. |
| Predicates.SelectKeepsAll | django_queryset_project/main/views.py:32 | A lookup that every student satisfies keeps the whole table, in order. |
| Predicates.SelectDropsAll | django_queryset_project/main/views.py:32 | A lookup that no student satisfies keeps nobody. |
| Predicates.TautologyKeepsAll | django_queryset_project/main/views.py:150-151 | `Q(p) OR ~Q(p)` keeps every student, in order. |
| Predicates.ContradictionKeepsNone | django_queryset_project/main/views.py:150-151 | `Q(p) & ~Q(p)` keeps no student. |
| Predicates.SelectPartition | django_queryset_project/main/views.py:151 | Every student is kept by exactly one of `p` and `~Q(p)`, so the two counts add up to the table size. |
| Predicates.SelectAppend | django_queryset_project/main/views.py:32 | Filtering distributes over concatenation, so the filter keeps the input's order. |
| Predicates.Exists | django_queryset_project/main/views.py:171-172 | `exists()` holds exactly when some student satisfies the lookup. |
| Sorting.KeyLeTotalOrder | django_queryset_project/main/views.py:52 | The key order is reflexive, total, transitive and antisymmetric, so every allowed key sorts consistently. |
| Sorting.SortBy | django_queryset_project/main/views.py:52 | `order_by` returns a permutation of its input that is non-decreasing in the key, or non-increasing for a `-` key. |
| Sorting.SortByStable | django_queryset_project/main/views.py:52 | Students with equal keys keep their input order. |
| RecordStore.IndexOf | django_queryset_project/main/views.py:75 | A key lookup finds a position exactly when some record has that key, and the record there has it. |
| RecordStore.GetCourse | django_queryset_project/main/views.py:102 | `get_object_or_404(Course, pk=pk)` finds a course exactly when one has key `pk`. A miss is `None`, the 404. |
| RecordStore.GetStudent | django_queryset_project/main/views.py:75 | `get_object_or_404(Student, pk=pk)` finds a student exactly when one has key `pk`. |
| RecordStore.CourseStudents | django_queryset_project/main/models.py:17 | The reverse relation `course.students` holds exactly the students whose foreign key names the course. |
| RecordStore.AddCourse | django_queryset_project/main/models.py:4-7 | Inserting a course succeeds exactly when its key is free, appends it, and keeps the store invariant. |
| RecordStore.AddStudent | django_queryset_project/main/models.py:13-17 | Inserting a student succeeds exactly when its key is free and its non-null foreign key names an existing course. It appends the student and keeps the invariant. |
| RecordStore.UpdateStudent | django_queryset_project/main/views.py:74-80 | Saving an edited student succeeds exactly when the student exists and the new course does. It replaces that one record, leaves every other record as it was, and keeps the invariant. |
| RecordStore.DeleteStudent | django_queryset_project/main/views.py:86-90 | Deleting a student succeeds exactly when it exists and removes that one record. Courses are untouched and every other student stays. |
| RecordStore.DeleteCourse | django_queryset_project/main/models.py:17 | Deleting a course with `CASCADE` removes exactly the students referencing it, so the student total drops by that course's count. Every other course and student stays, and the invariant is kept. |
| RecordStore.CascadeWellFormed | django_queryset_project/main/models.py:17 | After the cascade, no remaining student references the deleted course. |
| RecordStore.AddThenDeleteStudent | django_queryset_project/main/views.py:86-90 | Deleting a student just inserted restores the store exactly. |
| RecordStore.AddThenDeleteCourse | django_queryset_project/main/models.py:17 | Deleting a course just inserted into a well-formed store restores it exactly. The cascade removes nobody, since no student can reference the new course yet. |
| Aggregates.MaxAge | django_queryset_project/main/views.py:104 | `Max('age')` is absent over no students. Otherwise it bounds every age from above and is some student's age. |
| Aggregates.MinAge | django_queryset_project/main/views.py:104 | `Min('age')` is absent over no students. Otherwise it bounds every age from below and is some student's age. |
| Aggregates.Aggregate | django_queryset_project/main/views.py:104 | `total` is the number of students. Max, min and sum are all absent exactly when there are none, and otherwise every age lies between min and max. |
| Aggregates.AverageWithinBounds | django_queryset_project/main/views.py:104 | The sum that stands in for `Avg` lies between `total * min` and `total * max`, so the average lies between min and max. |
| Aggregates.SumOfSortBy | django_queryset_project/main/views.py:103-104 | Ordering does not change a sum. |
| Aggregates.AggregateOrderInvariant | django_queryset_project/main/views.py:103-104 | Aggregating the name-ordered students gives the same statistics as aggregating them unordered. |
| Aggregates.Annotate | django_queryset_project/main/views.py:97 | `annotate(student_count=Count('students'))` gives each course, in order, the number of students referencing it. |
| Aggregates.CountsCoverStudents | django_queryset_project/main/views.py:97 | When keys are unique and every student's course exists, the annotated counts add up to the number of students. |
| Params.NameParam | django_queryset_project/main/views.py:30-31 | The name search is the stripped parameter. It is absent exactly when that is empty, and a present one has no surrounding whitespace. |
| Params.NumberParam | django_queryset_project/main/views.py:35-47 | A numeric parameter yields a number exactly when its stripped text is a non-empty run of decimal digits, of any script, of at most 4300 digits. Empty, signed, mixed, superscript or longer text yields none and is ignored, where the code as written raises on superscripts and on longer runs. |
| Params.NumberParamReadsPrinted | django_queryset_project/main/views.py:35-37 | A number sent as its decimal spelling, at most 4300 digits long, is read back as itself. |
| Params.IgnoredNumberExamples | django_queryset_project/main/views.py:35-37 | A missing parameter and the values ``, ` `, `-3`, `2a` and `4.5` add no filter. |
| Params.ParsedNumberExamples | django_queryset_project/main/views.py:35-37 | ` 18 ` reads as 18, and `007` reads as 7. |
| Params.ParseOrder | django_queryset_project/main/views.py:51 | The order value yields a key exactly when it is one of the five allowed spellings, and the key is spelled that way. |
| Params.OrderKeyRoundTrip | django_queryset_project/main/views.py:51 | Every allowed key is reached from its own spelling. |
| Params.OrderParam | django_queryset_project/main/views.py:50-51 | A missing `order` means `name`. A present one yields a key exactly when it is allowed. |
| Params.NumberParamAsWritten | django_queryset_project/main/views.py:36-37 | The guard as written raises exactly on text that `isdigit()` accepts but `int()` cannot read: text that is not all decimal digits (superscripts, circled digits and the other digit characters `int()` rejects), or a decimal run longer than 4300 digits. Otherwise it agrees with `Params.NumberParam`, decimal digits of other scripts included. |
| Params.SuperscriptDigitRaises | django_queryset_project/main/views.py:36-37 | `min_age=²` raises under the guard as written, and the corrected reading ignores it. |
| Params.OtherScriptDigitsRead | django_queryset_project/main/views.py:36-37 | `min_age=٣` (Arabic-Indic three) reads as 3 under both the guard as written and the corrected reading. |
| Params.LongNumberRaises | django_queryset_project/main/views.py:36-37 | `min_age` set to 4301 ones raises under the guard as written, and the corrected reading ignores it. |
| StudentListView.ActiveFiltersListed | django_queryset_project/main/views.py:29-47 | A parameter adds a lookup exactly when it parses, and the lookup carries the parsed value. There are at most four lookups. |
| StudentListView.ActiveFiltersMeaning | django_queryset_project/main/views.py:27-47 | The conjunction of the added lookups holds of a student exactly when every parameter that parses constrains it accordingly: name containment ignoring case, inclusive age bounds, course key. |
| StudentListView.StudentList | django_queryset_project/main/views.py:25-60 | The page holds exactly the stored students meeting every active lookup, as a permutation of the filtered sequence, and `count` is their number. An order value outside the allow-list leaves the filtered sequence as it is. An allowed one sorts it by that key. The parameters are read the corrected way (`Params.NumberParam`), so `?min_age=²` gives a page here where the code as written raises. |
| StudentListView.StudentListByName | django_queryset_project/main/views.py:50-52 | With `order` missing or `name`, the page's names are in lexicographic order. |
| StudentListView.StudentListByNameDesc | django_queryset_project/main/views.py:51-52 | With `order=-name`, the page's names are in reverse lexicographic order. |
| StudentListView.StudentListByAge | django_queryset_project/main/views.py:51-52 | With `order=age`, ages are non-decreasing. |
| StudentListView.StudentListByAgeDesc | django_queryset_project/main/views.py:51-52 | With `order=-age`, ages are non-increasing. |
| StudentListView.StudentListByTitle | django_queryset_project/main/views.py:51-52 | With `order=course__title`, the students' course titles are in lexicographic order. |
| StudentListView.StudentListFilterOrderIrrelevant | django_queryset_project/main/views.py:27-47 | Applying the same lookups in any other order selects the same students in the same order. |
| StudentListView.MinAgeBeyondEveryAge | django_queryset_project/main/views.py:35-37 | A `min_age` that reads as a number and lies above every stored age gives an empty page with count 0. |
| StudentListView.MaxAgeBeyondEveryAge | django_queryset_project/main/views.py:40-42 | A `max_age` that reads as a number and lies at or above every stored age, as the only lookup, keeps every student in table order. |
| CourseViews.CourseList | django_queryset_project/main/views.py:96-98 | The course list holds every annotated course row once and is ordered by title. |
| CourseViews.CourseListRows | django_queryset_project/main/views.py:97 | Every row is a stored course with the number of its students, and every course has a row. |
| CourseViews.CourseListCountsSum | django_queryset_project/main/views.py:97 | In a well-formed store the listed counts add up to the number of students. |
| CourseViews.CourseDetail | django_queryset_project/main/views.py:101-105 | The page exists exactly when the course does, and shows that course. Its students are the course's students ordered by name, and its statistics are theirs. |
| CourseViews.CourseDetailStats | django_queryset_project/main/views.py:102-104 | The page lists exactly the students whose course is `pk`. `total` is their number and every age lies between `min_age` and `max_age`. With no students, `total` is 0 and the other statistics are absent. |
| QuerysetDemo.ValuesAll | django_queryset_project/main/views.py:139 | Each row is one student's id, name, age and course title, in table order. |
| QuerysetDemo.ValuesNameAgeAt | django_queryset_project/main/views.py:167 | Row `i` of `values('name', 'age')` is student `i`'s name and age. |
| QuerysetDemo.ValuesNameAgeTitle | django_queryset_project/main/views.py:151 | Row `i` holds student `i`'s name, age and course title. |
| QuerysetDemo.Names | django_queryset_project/main/views.py:168 | `values_list('name', flat=True)` is the students' names, in order. |
| QuerysetDemo.TitleCounts | django_queryset_project/main/views.py:163 | Row `i` holds course row `i`'s title and student count. |
| QuerysetDemo.ProjectedSelect | django_queryset_project/main/views.py:145-147 | `filter(p).values('name', 'age')` holds exactly the name/age pairs of the students meeting `p`. |
| QuerysetDemo.ProjectThenFilter | django_queryset_project/main/views.py:145-150 | For a lookup that reads only name and age, `filter(p).values('name', 'age')` equals the projected table with the matching rows kept: the same rows, as often, in table order. |
| QuerysetDemo.AgeOver20Rows | django_queryset_project/main/views.py:145 | The rows are exactly those of students strictly older than 20. They are the table's name/age rows with age over 20, each as often as in the table, in table order. |
| QuerysetDemo.NameHasARows | django_queryset_project/main/views.py:146 | The rows are exactly those of students whose name contains `a` or `A`. They are the table's name/age rows whose name does, each as often as in the table, in table order. |
| QuerysetDemo.AgeIn18To23Rows | django_queryset_project/main/views.py:147 | The rows are exactly those of students aged 18 to 23, both ends included. They are the table's name/age rows in that range, each as often as in the table, in table order. |
| QuerysetDemo.YoungOrOldRows | django_queryset_project/main/views.py:150 | The rows are exactly those of students under 20 or over 24. They are the table's name/age rows with such an age, each as often as in the table, in table order. |
| QuerysetDemo.ProjectedSelectTitle | django_queryset_project/main/views.py:151 | `filter(p).values('name', 'age', 'course__title')` holds exactly the name/age/title rows of the students meeting `p`. |
| QuerysetDemo.NotPythonRows | django_queryset_project/main/views.py:151 | The rows are exactly the name/age/title rows of the students whose course is not titled `Python`. With the Python students they make up the table, and no row carries the title `Python`. |
| QuerysetDemo.HasStudents | django_queryset_project/main/views.py:171 | `exists()` holds exactly when the table is non-empty. |
| QuerysetDemo.HasYoung | django_queryset_project/main/views.py:172 | `filter(age__lt=18).exists()` holds exactly when some student is under 18. |
| QuerysetDemo.CoursesAnnotated | django_queryset_project/main/views.py:162-164 | Each course, in order, is shown with its title and the number of its students. |
| QuerysetDemo.OrderedByAge | django_queryset_project/main/views.py:175-176 | Every student's name/age row appears as often as in the table. Ages are non-decreasing for `age` and non-increasing for `-age`. |
| QuerysetDemo.TitleCountsSum | django_queryset_project/main/views.py:162-164 | Projecting the annotated rows keeps their counts. |
| QuerysetDemo.Demo | django_queryset_project/main/views.py:129-178 | The demo page holds one field per section of the view. What each field holds is stated by its own function above, and `QuerysetDemo.DemoConsistent` relates the sections. |
| QuerysetDemo.DemoListingsAgree | django_queryset_project/main/views.py:139-168 | Row `i` of the full listing, of `values('name', 'age')` and of `values_list('name', flat=True)` carry the same student's name, and the first two the same age. |
| QuerysetDemo.DemoOrderingsAgree | django_queryset_project/main/views.py:166-176 | `order_by('age')` and `order_by('-age')` hold the rows of `values('name', 'age')`, each as often. |
| QuerysetDemo.DemoConsistent | django_queryset_project/main/views.py:136-176 | The sections agree. The count, the listings, the projections, both orderings and the aggregate total see the same students: the full listing, `values()` and `values_list()` agree row by row on name and age, and both orderings hold the same multiset of name/age rows as `values()`, and `has_students` holds exactly when there is one. In a well-formed store the per-course counts add up to the count. |
| SeedData.SeedWellFormed | django_queryset_project/main/management/commands/seed.py:14-38 | The seed rows satisfy the store invariant. |
| SeedData.SeedAgeOver20 | django_queryset_project/main/management/commands/seed.py:28-37 | `age__gt=20` keeps five seed students. |
| SeedData.SeedAgeRange | django_queryset_project/main/management/commands/seed.py:28-37 | `age__range=(18, 23)` keeps five seed students. |
| SeedData.SeedYoungOrOld | django_queryset_project/main/management/commands/seed.py:28-37 | `Q(age__lt=20) OR Q(age__gt=24)` keeps four seed students. |
| SeedData.SeedNotPython | django_queryset_project/main/management/commands/seed.py:28-37 | `~Q(course__title='Python')` keeps five seed students. |
| SeedData.SeedCourseCounts | django_queryset_project/main/management/commands/seed.py:14-37 | Python and Django have three students each, and JavaScript has two. |
| SeedData.SeedAggregates | django_queryset_project/main/management/commands/seed.py:28-37 | There are eight students, the oldest is 30, the youngest 17, and the ages sum to 177 (an average of 22.125). |
| SeedData.SeedHasYoung | django_queryset_project/main/management/commands/seed.py:33 | Some seed student is under 18. |

## Left out

- HTTP handling is not modelled: `render`, `redirect`, templates and `urls.py`. A page is the record a view would render, and a 404 is `None`.
- The create, update and delete views' GET/POST branching and the form layer (`forms.py`) are not modelled. The store operations stand for `form.save()` and `delete()`, and the caller supplies primary keys. The age bounds in the form are HTML widget attributes only.
- The `home` view and `admin.py` are outside the modelled views.
- `Avg('age')` is floating point. The statistics carry the sum of ages instead, and the average is `sumAge / total`.
- `first()` and `last()` on the demo page are not modelled, because they depend on the implicit primary-key ordering the database applies.
- `created_at` and `enrolled_at` are not modelled: `auto_now_add` fills them from the clock (`timezone.now()`) when the row is first saved.
- `max_length`, `EmailField` validation and `select_related` are not modelled. The first two are form and database constraints; the third only affects performance.
- The seed command's clearing of the tables and `bulk_create` are not modelled. `SeedData` takes the resulting rows, with keys 1 to 3 and 1 to 8, as given.
- A query string that repeats a parameter is not modelled. Each parameter is one optional string.
- Text.ParseNat: the decimal digits are those of Unicode 15.0, and the digit limit is CPython's default of 4300 (Python 3.11 and later; `sys.set_int_max_str_digits` can change it). Other Python versions ship other Unicode versions and other limits.
- Params.NumberParam: the decimal digits and the 4300-digit limit are those of `Text.ParseNat`.
- Params.NumberParam: a number that reads is unbounded in the model and never makes the query fail. In Django before 5.0 on SQLite, a bound beyond 64 bits raises `OverflowError` when the query runs. From 5.0 on, `age__gte` with such a value gives no rows and `age__lte` gives all of them, and the model follows this newer behaviour. `course_id=` goes through the foreign key's related lookup, which does not carry that guard, so a course id past 64 bits raises `OverflowError` on SQLite in every version, where the model gives an empty page. (A run past 4300 digits makes `int()` raise `ValueError` in every Django version; the corrected reading ignores it, see `Params.LongNumberRaises`.)
- Params.NumberParamAsWritten: the digit characters `isdigit()` accepts beyond the decimal ones are those of Unicode 15.0, the tables of Python 3.12.
- StudentListView.MinAgeBeyondEveryAge: for a bound beyond 64 bits this is Django 5.0 and later; earlier versions raise `OverflowError` on SQLite.
- StudentListView.MaxAgeBeyondEveryAge: for a bound beyond 64 bits this is Django 5.0 and later; earlier versions raise `OverflowError` on SQLite.
- Models.StudentDisplay: the age is unbounded in the model. Python's `str()` raises past 4300 digits, which an `IntegerField` age never reaches.
- Text.IContains folds ASCII letters only. Unicode case folding is not modelled.
- Sorting.SortBy keeps ties in table order. The database leaves the order of equal keys unspecified, so this is one admissible outcome, not the only one.

## Findings

| source | as written | input that shows it | evidently intended | confidence | as-written member | corrected member |
|---|---|---|---|---|---|---|
| django_queryset_project/main/views.py:36-37 | `if min_age.isdigit(): int(min_age)`; `max_age` and `course` at lines 41-42 and 46-47 do the same | `?min_age=²` (U+00B2): `isdigit()` is true, `int()` raises `ValueError`, and the request fails. Likewise `?min_age=` followed by 4301 ones: `isdigit()` is true and `int()` raises `ValueError` at its 4300-digit limit. | a value `int()` cannot read is ignored, like `-3` or `2a` | medium, not executed | Params.NumberParamAsWritten, Params.SuperscriptDigitRaises, Params.LongNumberRaises | Params.NumberParam |
