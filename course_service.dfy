/** CourseService: the Courses and Enrollments tables, check-then-insert
    enrollment, enrollment queries, and the field rules of course creation
    and update. */
module CourseService {
  import opened Outcomes
  import opened Ids

  datatype Course = Course(
    courseId: Guid,
    title: string,
    description: string,
    instructorId: Guid,
    mediaUrl: string,
    instructorName: string,
    enrolledStudents: int)

  datatype Enrollment = Enrollment(enrollmentId: Guid, studentId: Guid, courseId: Guid)

  datatype CourseDto = CourseDto(title: string, description: string, mediaUrl: string)

  datatype CourseError = KeyNotFound   // "Course with ID ... not found"

  const UnknownInstructor: string := "Unknown Instructor"

  // ---------------------------------------------------------------------------
  // The enrollment table as a value

  predicate IsEnrollmentOf(e: Enrollment, studentId: Guid, courseId: Guid) {
    e.studentId == studentId && e.courseId == courseId
  }

  /** Enrollments.AnyAsync(e => e.StudentId == s && e.CourseId == c). */
  function AnyEnrollment(es: seq<Enrollment>, studentId: Guid, courseId: Guid): (r: bool)
    ensures r <==> exists i :: 0 <= i < |es| && IsEnrollmentOf(es[i], studentId, courseId)
  {
    if es == [] then false
    else
      var init := es[..|es| - 1];
      assert forall i :: 0 <= i < |init| ==> init[i] == es[i];
      AnyEnrollment(init, studentId, courseId) || IsEnrollmentOf(es[|es| - 1], studentId, courseId)
  }

  /** Enrollments.CountAsync(e => e.CourseId == c). */
  function CountForCourse(es: seq<Enrollment>, courseId: Guid): nat {
    if es == [] then 0
    else CountForCourse(es[..|es| - 1], courseId) + if es[|es| - 1].courseId == courseId then 1 else 0
  }

  /** No (student, course) pair is enrolled twice. */
  predicate NoDuplicatePairs(es: seq<Enrollment>) {
    forall i, j :: 0 <= i < j < |es| ==>
      es[i].studentId != es[j].studentId || es[i].courseId != es[j].courseId
  }

  function StudentsOf(es: seq<Enrollment>, courseId: Guid): set<Guid> {
    set e | e in es && e.courseId == courseId :: e.studentId
  }

  /** Without duplicate pairs, a course's enrollment count is the number of
      distinct students enrolled in it. */
  lemma {:induction false} CountIsDistinctStudents(es: seq<Enrollment>, courseId: Guid)
    requires NoDuplicatePairs(es)
    ensures CountForCourse(es, courseId) == |StudentsOf(es, courseId)|
  {
    if es != [] {
      var init, last := es[..|es| - 1], es[|es| - 1];
      assert es == init + [last];
      assert NoDuplicatePairs(init) by {
        forall i, j | 0 <= i < j < |init| ensures init[i].studentId != init[j].studentId || init[i].courseId != init[j].courseId {
          assert init[i] == es[i] && init[j] == es[j];
        }
      }
      CountIsDistinctStudents(init, courseId);
      CountAfterEnroll(init, last, courseId);
      if last.courseId == courseId {
        assert StudentsOf(es, courseId) == StudentsOf(init, courseId) + {last.studentId};
        assert last.studentId !in StudentsOf(init, courseId);
      } else {
        assert StudentsOf(es, courseId) == StudentsOf(init, courseId);
      }
    }
  }

  /** Adding one enrollment raises its course's count by one and leaves every
      other course's count alone. */
  lemma CountAfterEnroll(es: seq<Enrollment>, e: Enrollment, courseId: Guid)
    ensures CountForCourse(es + [e], courseId) == CountForCourse(es, courseId) + (if e.courseId == courseId then 1 else 0)
    ensures CountForCourse(es, courseId) <= |es|
  {
    assert (es + [e])[..|es|] == es;
    CountBound(es, courseId);
  }

  lemma {:induction false} CountBound(es: seq<Enrollment>, courseId: Guid)
    ensures CountForCourse(es, courseId) <= |es|
  {
    if es != [] {
      CountBound(es[..|es| - 1], courseId);
    }
  }

  // ---------------------------------------------------------------------------
  // Courses as a value

  /** Courses.Where(c => ids.Contains(c.CourseId)), in table order. */
  function CoursesWithIds(courses: seq<Course>, ids: set<Guid>): seq<Course> {
    if courses == [] then []
    else
      var init := CoursesWithIds(courses[..|courses| - 1], ids);
      var last := courses[|courses| - 1];
      if last.courseId in ids then init + [last] else init
  }

  /** The filter keeps exactly the courses whose id is in the set. */
  lemma {:induction false} CoursesWithIdsMembers(courses: seq<Course>, ids: set<Guid>)
    ensures forall c :: c in CoursesWithIds(courses, ids) <==> c in courses && c.courseId in ids
  {
    if courses != [] {
      var init, last := courses[..|courses| - 1], courses[|courses| - 1];
      assert courses == init + [last];
      CoursesWithIdsMembers(init, ids);
    }
  }

  /** The instructor name filled in from the Users table when the
      instructor exists, left as stored otherwise. */
  function WithInstructorName(c: Course, users: map<Guid, string>): (r: Course)
    ensures r.courseId == c.courseId && r.instructorId == c.instructorId
    /** Only the instructor name may change, and only from a known user. */
    ensures r == c.(instructorName := r.instructorName)
    ensures c.instructorId in users ==> r.instructorName == users[c.instructorId]
    ensures c.instructorId !in users ==> r == c
  {
    if c.instructorId in users then c.(instructorName := users[c.instructorId]) else c
  }

  class CourseStore {
    var courses: seq<Course>
    var enrollments: seq<Enrollment>
    /** Users: user id to Name. */
    var users: map<Guid, string>

    ghost predicate Valid()
      reads this
    {
      && (forall i, j :: 0 <= i < j < |courses| ==> courses[i].courseId != courses[j].courseId)
      && (forall i, j :: 0 <= i < j < |enrollments| ==> enrollments[i].enrollmentId != enrollments[j].enrollmentId)
      && NoDuplicatePairs(enrollments)
    }

    constructor (users: map<Guid, string>)
      ensures Valid()
      ensures courses == [] && enrollments == [] && this.users == users
    {
      courses, enrollments := [], [];
      this.users := users;
    }

    function CourseIds(): (ids: set<Guid>)
      reads this
      ensures forall i :: 0 <= i < |courses| ==> courses[i].courseId in ids
    {
      set c | c in courses :: c.courseId
    }

    function EnrollmentIds(): (ids: set<Guid>)
      reads this
      ensures forall i :: 0 <= i < |enrollments| ==> enrollments[i].enrollmentId in ids
    {
      set e | e in enrollments :: e.enrollmentId
    }

    /** Courses.FindAsync(id): the row holding that id. */
    function FindCourse(id: Guid): (k: Option<nat>)
      reads this
      ensures k.Some? ==> k.value < |courses| && courses[k.value].courseId == id
      ensures k.None? ==> forall i :: 0 <= i < |courses| ==> courses[i].courseId != id
    {
      FindFrom(courses, id, 0)
    }

    /** EnrollmentExistsAsync. */
    function EnrollmentExists(studentId: Guid, courseId: Guid): (r: bool)
      reads this
      ensures r <==> exists i :: 0 <= i < |enrollments| && IsEnrollmentOf(enrollments[i], studentId, courseId)
    {
      AnyEnrollment(enrollments, studentId, courseId)
    }

    /** GetEnrollmentCountAsync: the rows for the course, which are as many
        as its distinct students. */
    function GetEnrollmentCount(courseId: Guid): (n: nat)
      requires Valid()
      reads this
      ensures n <= |enrollments|
      ensures n == |StudentsOf(enrollments, courseId)|
    {
      CountBound(enrollments, courseId);
      CountIsDistinctStudents(enrollments, courseId);
      CountForCourse(enrollments, courseId)
    }

    /** EnrollStudentAsync: check, then insert. */
    method EnrollStudent(studentId: Guid, courseId: Guid, newEnrollmentId: Guid) returns (added: bool)
      requires Valid() && newEnrollmentId !in EnrollmentIds()
      modifies this
      ensures Valid()
      ensures added <==> !old(EnrollmentExists(studentId, courseId))
      ensures enrollments == if added then old(enrollments) + [Enrollment(newEnrollmentId, studentId, courseId)]
                             else old(enrollments)
      ensures courses == old(courses) && users == old(users)
      ensures EnrollmentExists(studentId, courseId)
    {
      var alreadyEnrolled := AnyEnrollment(enrollments, studentId, courseId);
      if alreadyEnrolled {
        return false;
      }
      var enrollment := Enrollment(newEnrollmentId, studentId, courseId);
      enrollments := enrollments + [enrollment];
      assert enrollments[|enrollments| - 1] == enrollment;
      return true;
    }

    /** CreateCourseAsync. */
    method CreateCourse(dto: CourseDto, instructorId: Guid, newCourseId: Guid) returns (course: Course)
      requires Valid() && newCourseId !in CourseIds()
      modifies this
      ensures Valid()
      ensures course == Course(newCourseId, dto.title, dto.description, instructorId, dto.mediaUrl,
                               if instructorId in users then users[instructorId] else UnknownInstructor, 0)
      ensures courses == old(courses) + [course]
      ensures enrollments == old(enrollments) && users == old(users)
    {
      var instructorName := if instructorId in users then users[instructorId] else UnknownInstructor;
      course := Course(newCourseId, dto.title, dto.description, instructorId, dto.mediaUrl, instructorName, 0);
      courses := courses + [course];
    }

    /** UpdateCourseAsync: the stored row gets the new title, description and
        media URL; the returned course also carries the current instructor
        name and enrollment count, which are assigned after the save. */
    method UpdateCourse(id: Guid, dto: CourseDto) returns (r: Outcome<Course, CourseError>)
      requires Valid()
      modifies this
      ensures Valid()
      ensures enrollments == old(enrollments) && users == old(users)
      ensures old(FindCourse(id)).None? ==> r == Err(KeyNotFound) && courses == old(courses)
      ensures old(FindCourse(id)).Some? ==>
                var k := old(FindCourse(id)).value;
                var stored := old(courses)[k].(title := dto.title, description := dto.description, mediaUrl := dto.mediaUrl);
                && courses == old(courses)[k := stored]
                && r == Ok(WithInstructorName(stored, users).(enrolledStudents := CountForCourse(enrollments, id)))
    {
      var found := FindCourse(id);
      if found.None? {
        return Err(KeyNotFound);
      }
      var k := found.value;
      var course := courses[k].(title := dto.title, description := dto.description, mediaUrl := dto.mediaUrl);
      courses := courses[k := course];
      course := WithInstructorName(course, users);
      course := course.(enrolledStudents := CountForCourse(enrollments, course.courseId));
      return Ok(course);
    }

    /** GetEnrolledCoursesAsync: the student's course ids, the courses with
        those ids, then a foreach filling in instructor names. */
    method GetEnrolledCourses(studentId: Guid) returns (result: seq<Course>)
      ensures var matched := CoursesWithIds(courses, EnrolledCourseIds(enrollments, studentId));
              |result| == |matched| && forall i :: 0 <= i < |result| ==> result[i] == WithInstructorName(matched[i], users)
    {
      var enrolledCourseIds := EnrolledCourseIds(enrollments, studentId);
      result := CoursesWithIds(courses, enrolledCourseIds);
      ghost var matched := result;
      var i := 0;
      while i < |result|
        invariant 0 <= i <= |result| == |matched|
        invariant forall j :: 0 <= j < i ==> result[j] == WithInstructorName(matched[j], users)
        invariant forall j :: i <= j < |result| ==> result[j] == matched[j]
      {
        var course := result[i];
        if course.instructorId in users {
          result := result[i := course.(instructorName := users[course.instructorId])];
        }
        i := i + 1;
      }
    }
  }

  function FindFrom(courses: seq<Course>, id: Guid, from: nat): (k: Option<nat>)
    requires from <= |courses|
    ensures k.Some? ==> from <= k.value < |courses| && courses[k.value].courseId == id
    ensures k.None? ==> forall i :: from <= i < |courses| ==> courses[i].courseId != id
    decreases |courses| - from
  {
    if from == |courses| then None
    else if courses[from].courseId == id then Some(from)
    else FindFrom(courses, id, from + 1)
  }

  /** Enrollments.Where(e => e.StudentId == s).Select(e => e.CourseId). */
  function EnrolledCourseIds(es: seq<Enrollment>, studentId: Guid): (ids: set<Guid>)
    ensures forall c :: c in ids <==> AnyEnrollment(es, studentId, c)
  {
    set e | e in es && e.studentId == studentId :: e.courseId
  }

  /** A student's enrolled courses are exactly the table's courses in which
      the student has an enrollment. */
  lemma EnrolledCoursesExact(courses: seq<Course>, es: seq<Enrollment>, studentId: Guid)
    ensures forall c :: c in CoursesWithIds(courses, EnrolledCourseIds(es, studentId)) <==>
                          c in courses && AnyEnrollment(es, studentId, c.courseId)
  {
    CoursesWithIdsMembers(courses, EnrolledCourseIds(es, studentId));
  }
}
