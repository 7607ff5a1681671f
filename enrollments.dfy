/**
 * The enrollment endpoints: POST enrolls the calling student in a course,
 * DELETE drops the course again. Both run a fixed chain of guards and answer
 * with a status and a message; only a request that passes every guard changes
 * the shared enrollment list.
 */
module Enrollments {
  import opened Wrappers
  import opened Tokens
  import opened Lists

  type StudentId = string
  type CourseNo = string

  /** The claims of a verified token; `role` is None when the token carries none. */
  datatype Payload = Payload(studentId: StudentId, role: Option<string>)

  /** One row of the enrollment table. */
  datatype Enrollment = Enrollment(studentId: StudentId, courseNo: CourseNo)

  /** The JSON answer `{ ok, message }` with its HTTP status. */
  datatype Reply = Reply(status: nat, ok: bool, message: string)

  const MissingAuthHeader := Reply(401, false, "Authorization header is required")
  const InvalidToken := Reply(401, false, "Invalid token")
  const EnrollForbidden := Reply(403, false, "Only students can access this API route")
  const DropForbidden := Reply(403, false, "Only Student can access this API route")
  const MalformedCourseNo := Reply(400, false, "courseNo must contain 6 characters")
  const UnknownCourse := Reply(400, false, "courseNo does not exist")
  const AlreadyEnrolled := Reply(400, false, "You are already enrolled in this course")
  const NotEnrolled := Reply(404, false, "You cannot drop from this course. You have not enrolled it yet!")
  const Enrolled := Reply(200, true, "You has enrolled a course successfully")
  const Dropped := Reply(200, true, "You has dropped from this course. See you next semester.")

  const CourseNoLength := 6

  /** The only role the endpoints turn away. */
  predicate IsAdmin(role: Option<string>)
    ensures role.None? ==> !IsAdmin(role)
    ensures role.Some? ==> (IsAdmin(role) <==> role.value == "ADMIN")
  {
    role == Some("ADMIN")
  }

  /** `courseNo` of the request body is a string of exactly six characters; None stands for a non-string. */
  predicate WellFormedCourseNo(courseNo: Option<string>)
    ensures courseNo.None? ==> !WellFormedCourseNo(courseNo)
    ensures courseNo.Some? ==> (WellFormedCourseNo(courseNo) <==> |courseNo.value| == CourseNoLength)
  {
    courseNo.Some? && |courseNo.value| == CourseNoLength
  }

  /**
   * The in-memory database: the read-only course list and the enrollment
   * list that the two handlers update in place. `verify` is the token check:
   * it gives the token's claims, or None where the real check throws.
   */
  class EnrollmentTable {
    const courses: seq<CourseNo>
    var enrollments: seq<Enrollment>

    constructor (courses: seq<CourseNo>, enrollments: seq<Enrollment>)
      ensures this.courses == courses && this.enrollments == enrollments
    {
      this.courses := courses;
      this.enrollments := enrollments;
    }

    /** POST: enroll the token's student in `courseNo`. */
    method Enroll(header: Option<string>, verify: string -> Option<Payload>, courseNo: Option<string>)
      returns (reply: Reply)
      modifies this
      ensures !HasBearerPrefix(header) ==> reply == MissingAuthHeader
      ensures HasBearerPrefix(header) && verify(BearerToken(header)).None? ==> reply == InvalidToken
      ensures HasBearerPrefix(header) && verify(BearerToken(header)).Some? ==>
        var p := verify(BearerToken(header)).value;
        && (IsAdmin(p.role) ==> reply == EnrollForbidden)
        && (!IsAdmin(p.role) && !WellFormedCourseNo(courseNo) ==> reply == MalformedCourseNo)
        && (!IsAdmin(p.role) && WellFormedCourseNo(courseNo) ==>
              var entry := Enrollment(p.studentId, courseNo.value);
              && (courseNo.value !in courses ==> reply == UnknownCourse)
              && (courseNo.value in courses && entry in old(enrollments) ==> reply == AlreadyEnrolled)
              && (courseNo.value in courses && entry !in old(enrollments) ==>
                    reply == Enrolled && enrollments == old(enrollments) + [entry]))
      ensures reply != Enrolled ==> enrollments == old(enrollments)
      ensures Unique(old(enrollments)) ==> Unique(enrollments)
    {
      if !HasBearerPrefix(header) {
        return MissingAuthHeader;
      }
      var token := BearerToken(header);
      var payload := verify(token);
      if payload.None? {
        return InvalidToken;
      }
      var studentId, role := payload.value.studentId, payload.value.role;
      if IsAdmin(role) {
        return EnrollForbidden;
      }
      if !WellFormedCourseNo(courseNo) {
        return MalformedCourseNo;
      }
      var course := courseNo.value;
      var foundCourse := Find(courses, course);
      if foundCourse == -1 {
        return UnknownCourse;
      }
      var entry := Enrollment(studentId, course);
      var foundEnroll := Find(enrollments, entry);
      if foundEnroll != -1 {
        return AlreadyEnrolled;
      }
      if Unique(enrollments) {
        AppendFreshUnique(enrollments, entry);
      }
      enrollments := enrollments + [entry];
      reply := Enrolled;
    }

    /** DELETE: drop the token's student from `courseNo`; the course list is not consulted. */
    method Drop(header: Option<string>, verify: string -> Option<Payload>, courseNo: Option<string>)
      returns (reply: Reply)
      modifies this
      ensures !HasBearerPrefix(header) ==> reply == MissingAuthHeader
      ensures HasBearerPrefix(header) && verify(BearerToken(header)).None? ==> reply == InvalidToken
      ensures HasBearerPrefix(header) && verify(BearerToken(header)).Some? ==>
        var p := verify(BearerToken(header)).value;
        && (IsAdmin(p.role) ==> reply == DropForbidden)
        && (!IsAdmin(p.role) && !WellFormedCourseNo(courseNo) ==> reply == MalformedCourseNo)
        && (!IsAdmin(p.role) && WellFormedCourseNo(courseNo) ==>
              var entry := Enrollment(p.studentId, courseNo.value);
              var i := IndexOf(old(enrollments), entry);
              && (i == -1 ==> reply == NotEnrolled)
              && (0 <= i ==> reply == Dropped && enrollments == RemoveAt(old(enrollments), i))
              && (0 <= i && Unique(old(enrollments)) ==> entry !in enrollments))
      ensures reply != Dropped ==> enrollments == old(enrollments)
      ensures reply == Dropped ==> |enrollments| == |old(enrollments)| - 1
      ensures Unique(old(enrollments)) ==> Unique(enrollments)
    {
      if !HasBearerPrefix(header) {
        return MissingAuthHeader;
      }
      var token := BearerToken(header);
      var payload := verify(token);
      if payload.None? {
        return InvalidToken;
      }
      var studentId, role := payload.value.studentId, payload.value.role;
      if IsAdmin(role) {
        return DropForbidden;
      }
      if !WellFormedCourseNo(courseNo) {
        return MalformedCourseNo;
      }
      var entry := Enrollment(studentId, courseNo.value);
      var foundIndex := Find(enrollments, entry);
      if foundIndex == -1 {
        return NotEnrolled;
      }
      if Unique(enrollments) {
        RemoveAtUnique(enrollments, foundIndex);
        RemoveFirstLeavesNone(enrollments, entry);
      }
      enrollments := RemoveAt(enrollments, foundIndex);
      reply := Dropped;
    }
  }
}
