# Student enrollment endpoints — a Dafny model

The repository serves two HTTP routes on `/enrollments`, backed by an
in-memory mock database:

- **POST** enrolls the calling student in a course;
- **DELETE** drops the student from the course again.

Both read a bearer token from the `Authorization` header, verify it, turn
administrators away and check that the body's `courseNo` is a
six-character string. POST then checks that the course exists and that the
student is not already enrolled, and appends `{studentId, courseNo}` to the
enrollment list. DELETE looks up the first matching row and splices it out
(404 when there is none). Every refusal answers with a fixed status and
message and leaves the list as it was.

The model:

- `wrappers.dfy`: `Option`.
- `tokens.dfy`: the `"Bearer "` prefix test, JavaScript's `split` with a
  one-character separator, and the token as field 1 of the split header.
- `lists.dfy`: the first-index search (a specification function
  `IndexOf` and the scanning method `Find`), `splice(i, 1)` as `RemoveAt`,
  and the "no pair twice" predicate `Unique`, with their lemmas.
- `enrollments.dfy`: the reply constants with the route's exact statuses
  and messages, and the class `EnrollmentTable`. The class holds the
  read-only course list and the enrollment list, which its methods
  `Enroll` (POST) and `Drop` (DELETE) update in place.
- `scenarios.dfy`: two requests in a row, proved from the handlers'
  contracts alone.

Token verification is a parameter `verify: string -> Option<Payload>`. It
gives the token's claims, or `None` where `jwt.verify` throws. It is a function of the token alone: it does not see the clock or the secret, so the same token always gets the same answer from one `verify`. The request
body's `courseNo` is an `Option<string>`, where `None` stands for a value
that is not a string.

The round trip holds without assuming uniqueness beforehand. A successful
enroll has already checked that the row was absent, so the drop's first
match is the row just appended.

## Model

| member | source | states |
|---|---|---|
| Tokens.HasBearerPrefix | src/app/api/enrollments/route.ts:10 | the header is present and its first seven characters are exactly "Bearer "; a missing, empty or shorter header fails (the same test is at line 106) |
| Tokens.Split | src/app/api/enrollments/route.ts:20 | the split has one more field than the string has separators, and no field contains the separator |
| Tokens.JoinSplit | src/app/api/enrollments/route.ts:20 | joining the fields of a split, separator between, gives back the original header |
| Tokens.SplitJoin | src/app/api/enrollments/route.ts:20 | splitting a join of separator-free fields gives back exactly those fields |
| Tokens.SplitCons | src/app/api/enrollments/route.ts:20 | a separator-free word followed by the separator splits off as the first field, the rest splits on its own |
| Tokens.FirstField | src/app/api/enrollments/route.ts:20 | the first field is a prefix of the string that ends at the string's end or at a separator |
| Tokens.BearerToken | src/app/api/enrollments/route.ts:10-20 | the token is the text after "Bearer " up to the next space or the end: space-free, preceded by the prefix, followed by a space or nothing |
| Lists.IndexOf | src/app/api/enrollments/route.ts:158-161 | -1 exactly when the element is absent; otherwise an index holding the element with no earlier occurrence |
| Lists.Find | src/app/api/enrollments/route.ts:65-66 | the scan returns the first matching index, or -1, as IndexOf defines it |
| Lists.RemoveAt | src/app/api/enrollments/route.ts:172 | one element shorter; the elements before the index are kept in place and those after move down by one, order kept |
| Lists.RemoveAtMultiset | src/app/api/enrollments/route.ts:172 | splice removes exactly the element at the index and nothing else |
| Lists.AppendFreshUnique | src/app/api/enrollments/route.ts:77-95 | appending a pair that is not present keeps every pair distinct |
| Lists.RemoveAtUnique | src/app/api/enrollments/route.ts:158-172 | removing a row keeps every pair distinct |
| Lists.RemoveFirstLeavesNone | src/app/api/enrollments/route.ts:158-172 | with distinct rows, removing the first match leaves no matching row |
| Lists.AppendThenRemove | src/app/api/enrollments/route.ts:92-95 | appending a fresh row and splicing out its first occurrence restores the list |
| Enrollments.IsAdmin | src/app/api/enrollments/route.ts:40 | refuses only a role equal to "ADMIN"; a missing role or any other role passes (the same test is at line 135) |
| Enrollments.WellFormedCourseNo | src/app/api/enrollments/route.ts:54 | the body's courseNo is a string of exactly six characters; a non-string always fails (the same test is at line 148) |
| Enrollments.EnrollmentTable.constructor | src/app/api/enrollments/route.ts:1 | the table starts with the given course list and enrollment list |
| Enrollments.EnrollmentTable.Enroll | src/app/api/enrollments/route.ts:7-101 | guards in order (no Bearer header 401, bad token 401, ADMIN 403, not six characters 400, unknown course 400, already enrolled 400), each refusal leaves the list unchanged, success is 200 with exactly the pair appended, uniqueness preserved |
| Enrollments.EnrollmentTable.Drop | src/app/api/enrollments/route.ts:103-178 | same auth, role and shape guards (no course lookup); no match 404 with the list unchanged; otherwise 200 with the first match spliced out, one row shorter, uniqueness preserved, and with distinct rows the pair is gone |
| Scenarios.EnrollThenDrop | src/app/api/enrollments/route.ts:92-95 | after a successful enroll, a drop with the same header and course succeeds and restores the original list when the drop's token check gives the same claims; when that check rejects the token (expired), the drop answers 401 and the list stays the old list with exactly the pair appended |
| Scenarios.EnrollTwice | src/app/api/enrollments/route.ts:77-88 | after a successful enroll the same request is refused as already enrolled and the list is the old list with exactly the pair appended; a refused first request is answered the same way twice with no change |

## Left out

- Scenarios.EnrollThenDrop: token expiry (`exp`, `nbf`) and a change of secret between the two requests are not part of the token check; the scenario takes a second check for the drop, and promises the round trip only when both checks give the same claims for the token.
- JWT verification (`jwt.verify`) and its cryptography: a foreign library call, modelled as the `verify` parameter.
- The secret taken from `JWT_SECRET` or the default string: environment input that only `verify` would use.
- Framework plumbing (`headers()`, `NextRequest`, `NextResponse.json`): inputs are plain values and the answer is a `Reply`.
- A request body that fails to parse as JSON, or parses to `null` (route.ts:51-52, 146-147): `request.json()` is awaited without a try and destructuring `null` throws, so the handler throws (a 500 from the framework) and the list is unchanged; the model takes `courseNo` directly and has no input for these requests.
- The `@lib/DB` module is not part of this model: courses are a given sequence of course numbers, and the enrollment list persists in the table object between calls.
- Payloads without a `studentId`, or that are not objects: `studentId` is always a string in the model.
- Enrollments.WellFormedCourseNo: counts Dafny characters, whereas JavaScript's `length` counts UTF-16 code units, so characters outside the Basic Multilingual Plane are counted differently.
- Concurrent requests: the handlers are modelled as running one at a time.
