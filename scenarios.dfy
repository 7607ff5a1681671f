/** Two requests in a row against one table, proved from the handlers' contracts alone. */
module Scenarios {
  import opened Wrappers
  import opened Lists
  import opened Tokens
  import opened Enrollments

  /**
   * A successful enrollment followed by a drop of the same course with the same header.
   * `verify` checks the token for the enrollment and `verifyLater` for the drop, so a token
   * that expires in between can be told apart from one that is still accepted.
   */
  method EnrollThenDrop(table: EnrollmentTable, header: Option<string>,
                        verify: string -> Option<Payload>, verifyLater: string -> Option<Payload>,
                        courseNo: Option<string>)
    returns (enrolled: Reply, dropped: Reply)
    modifies table
    ensures enrolled == Enrolled ==> HasBearerPrefix(header) && verify(BearerToken(header)).Some? && courseNo.Some?
    ensures enrolled == Enrolled && HasBearerPrefix(header) &&
            verifyLater(BearerToken(header)) == verify(BearerToken(header)) ==>
              dropped == Dropped && table.enrollments == old(table.enrollments)
    ensures enrolled == Enrolled && HasBearerPrefix(header) && verifyLater(BearerToken(header)).None? &&
            verify(BearerToken(header)).Some? && courseNo.Some? ==>
              dropped == InvalidToken &&
              table.enrollments ==
              old(table.enrollments) + [Enrollment(verify(BearerToken(header)).value.studentId, courseNo.value)]
  {
    enrolled := table.Enroll(header, verify, courseNo);
    dropped := table.Drop(header, verifyLater, courseNo);
    if enrolled == Enrolled {
      var p := verify(BearerToken(header)).value;
      AppendThenRemove(old(table.enrollments), Enrollment(p.studentId, courseNo.value));
    }
  }

  /** Enrolling twice in one course: the second request is refused and the list holds exactly the one new row. */
  method EnrollTwice(table: EnrollmentTable, header: Option<string>, verify: string -> Option<Payload>,
                     courseNo: Option<string>)
    returns (first: Reply, second: Reply)
    modifies table
    ensures first == Enrolled ==> second == AlreadyEnrolled
    ensures first == Enrolled ==> HasBearerPrefix(header) && verify(BearerToken(header)).Some? && courseNo.Some?
    ensures first == Enrolled && HasBearerPrefix(header) && verify(BearerToken(header)).Some? && courseNo.Some? ==>
              table.enrollments ==
              old(table.enrollments) + [Enrollment(verify(BearerToken(header)).value.studentId, courseNo.value)]
    ensures first != Enrolled ==> second == first && table.enrollments == old(table.enrollments)
  {
    first := table.Enroll(header, verify, courseNo);
    second := table.Enroll(header, verify, courseNo);
  }
}
