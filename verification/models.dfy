/** The two record shapes of the application: a Course and the Students
    enrolled in it. Timestamps filled from the clock on first save are not
    part of the model. */
module Models {
  import opened Wrappers
  import opened Text

  datatype Course = Course(id: nat, title: string, description: string)

  /** `course` is the id of the Course the student belongs to: the foreign key
      is not nullable, so every student names exactly one course. */
  datatype Student = Student(id: nat, name: string, age: int, email: string, course: nat)

  /** Builds a course; a description that is not supplied is the empty string. */
  function NewCourse(id: nat, title: string, description: Option<string>): (c: Course)
    ensures c.id == id && c.title == title
    ensures description.None? ==> c.description == ""
    ensures description.Some? ==> c.description == description.value
  {
    Course(id, title, description.GetOr(""))
  }

  /** Builds a student; an email that is not supplied is the empty string. */
  function NewStudent(id: nat, name: string, age: int, email: Option<string>, course: nat): (s: Student)
    ensures s.id == id && s.name == name && s.age == age && s.course == course
    ensures email.None? ==> s.email == ""
    ensures email.Some? ==> s.email == email.value
  {
    Student(id, name, age, email.GetOr(""), course)
  }

  /** A course is displayed as its title and nothing else. */
  function CourseDisplay(c: Course): (r: string)
    ensures r == c.title
  {
    c.title
  }

  /** A student is displayed as `<name> (age <age>)`: the name comes first,
      then the age as `str()` prints it: ASCII digits with no leading zero,
      after a minus sign when negative, whose value is the age. */
  function StudentDisplay(s: Student): (r: string)
    ensures |r| > |s.name| + 6
    ensures r[..|s.name|] == s.name
    ensures r[|s.name|..|s.name| + 6] == " (age "
    ensures r[|r| - 1] == ')'
    ensures var mid := r[|s.name| + 6..|r| - 1];
      s.age >= 0 ==> IsAsciiDigits(mid) && (|mid| > 1 ==> mid[0] != '0') && DigitsValue(mid) == s.age
    ensures var mid := r[|s.name| + 6..|r| - 1];
      s.age < 0 ==>
        && |mid| > 1 && mid[0] == '-'
        && IsAsciiDigits(mid[1..]) && (|mid| > 2 ==> mid[1] != '0')
        && DigitsValue(mid[1..]) == -s.age
  {
    var digits := IntToString(s.age);
    var r := s.name + " (age " + digits + ")";
    assert r[|s.name| + 6..|r| - 1] == digits;
    IntToStringValue(s.age);
    r
  }

  /** The course with id `id`, if there is one (a lookup miss is `None`). */
  function FindCourse(courses: seq<Course>, id: nat): (r: Option<Course>)
    ensures r.Some? <==> exists i :: 0 <= i < |courses| && courses[i].id == id
    ensures r.Some? ==> r.value in courses && r.value.id == id
  {
    if |courses| == 0 then None
    else if courses[0].id == id then Some(courses[0])
    else
      var r := FindCourse(courses[1..], id);
      assert forall i :: 1 <= i < |courses| ==> courses[i] == courses[1..][i - 1];
      r
  }

  /** Title of the student's course, as `course__title` reads it through the join. */
  function TitleOf(courses: seq<Course>, id: nat): string {
    match FindCourse(courses, id)
    case Some(c) => c.title
    case None => ""
  }
}
