# Quiz application core: credentials, sessions and grading

A verified Dafny model of the two pieces of the quiz application's `Main.java`
that carry real logic:

* **Credentials and sessions** (`DatabaseManager`): registering a user under a
  unique username with a password digest, logging in (which opens a session
  under a fresh token that expires one hour later), validating a token (absent,
  valid, or expired, with the strict "expiry after now" rule), and logging out.
  The `users` and `sessions` tables are two maps in the `Auth.Db` value, and
  every operation is a pure function of the tables: registration and login
  return an outcome together with the new tables, validation returns only an
  outcome (it changes nothing), and logout returns only the new tables (it
  cannot fail).
* **Questions and grading**: the abstract question with its short-answer,
  true/false and multiple-choice kinds as one datatype, the shared
  `gradeAnswer` rule (trim, compare ignoring case, score 1 or 0), the total of
  a submitted attempt, the `~`-joined options column written on save and split
  on load, and the quiz picker's `"<id>: <title>"` label parsed back to an id.

The java.lang behaviours the code relies on are modelled as well:
`String.trim` (strips every character up to U+0020), `String.join`, and
`String.split` with its dropping of trailing empty fields and its one-element
result when the separator is absent, all exactly; `equalsIgnoreCase`
(per-character upper/lower comparison) and `Integer.toString` /
`Integer.parseInt` with the 32-bit range, for ASCII letters and digits only
(see "Left out").

Files: `wrappers.dfy` (Option, Result), `string_trim.dfy`, `ignore_case.dfy`,
`split.dfy`, `decimal.dfy` (java.lang string and integer behaviour),
`questions.dfy`, `attempt.dfy` (grading, saving/loading questions, submitting
an attempt), `auth.dfy` (the credential operations) and `auth_properties.dfy`
(lemmas relating them).

The digest function, the clock and the fresh token are parameters: `hash` is
any `string -> string`, `now` is a millisecond reading, and the token handed
to `Login` must not already key a session.

## Model

| member | source | states |
|---|---|---|
| StringTrim.Trim | Main.java:90 | the trimmed answer is no longer than the answer and has no blank (char up to U+0020) at either end |
| StringTrim.TrimIsTrimOf | Main.java:90 | the trimmed answer is a contiguous piece of the answer with only blanks cut from either end, and has no blank at either end |
| StringTrim.SkipLeadingStopsAt | Main.java:90 | the leading scan of trim stops exactly at the first non-blank character, or at the end |
| StringTrim.SkipTrailingStopsAt | Main.java:90 | the trailing scan of trim stops exactly after the last non-blank character, or at the start position |
| StringTrim.TrimAt | Main.java:90 | cutting a blank prefix and a blank suffix so that no blank end remains gives exactly the trim |
| StringTrim.TrimOfIsUnique | Main.java:90 | any string that is the input minus a blank prefix and suffix and has no blank ends is exactly what trim returns |
| StringTrim.TrimIdempotent | Main.java:90 | trimming a trimmed answer changes nothing |
| StringTrim.TrimOfTrimmed | Main.java:90 | a string with no blank ends is returned unchanged by trim |
| IgnoreCase.EqualsIgnoreCase | Main.java:90 | equalsIgnoreCase: a match implies equal lengths, and every string matches itself |
| IgnoreCase.CharsMatchIffSameLower | Main.java:90 | two characters pass the per-character test of regionMatches (CharsMatch: equal, equal upper-cased, or equal lower-cased after upper-casing) exactly when their lower-case forms are equal |
| IgnoreCase.EqualsIgnoreCaseIffSameLower | Main.java:90 | equalsIgnoreCase holds exactly when both strings are equal after lower-casing (both directions) |
| IgnoreCase.EqualsIgnoreCaseIsEquivalence | Main.java:90 | case-insensitive equality is reflexive, symmetric and transitive |
| Questions.Grade | Main.java:88-95 | the grade is always 0 or 1 |
| Questions.GradeIffSameLower | Main.java:89-95 | the grade is 1 exactly when the trimmed answer equals the correct answer after lower-casing both, and 0 exactly when they differ |
| Questions.GradeOfTrimmedAnswer | Main.java:89-95 | grading an answer and grading its trim give the same score |
| Questions.GradeDependsOnlyOnCorrectAnswer | Main.java:129-135 | two questions with the same correct answer grade every answer alike, whatever their kind or options: the options list is never consulted |
| Questions.CorrectAnswerEarnsPoint | Main.java:105-111 | the correct answer in any ASCII case, with any blanks before it and any (possibly different) blanks after it, scores 1 |
| Questions.ShortAnswerPaddedExample | Main.java:88-95 | " paris " scores 1 against "Paris" |
| Questions.ShortAnswerLongerExample | Main.java:88-95 | "parisia" scores 0 against "Paris" |
| Questions.TrueFalseExample | Main.java:104-111 | "true" scores 1 against "True" |
| Questions.MultipleChoiceExamples | Main.java:128-135 | with options A, B, C and answer B, "b" scores 1 and "C" scores 0 |
| Questions.StoredOptionsRoundTrip | Main.java:746-747 | options that are non-empty, free of `~`, and single or ending in a non-empty option come back unchanged from join then split |
| Questions.TypeName | Main.java:85 | each kind has its own type tag: "Short Answer", "True/False" or "Multiple Choice", and the tag identifies the kind |
| Questions.OptionsColumn | Main.java:743-749 | short answers store NULL; true/false stores exactly "True~False", which splits to True, False; multiple choice stores the `~`-join of its options, which splits back to the options when they are storable |
| Questions.FromRow | Main.java:1020-1034 | a loaded question has the row's ids, text, correct answer and type; an unknown type is skipped; a multiple-choice row with NULL options fails; multiple-choice options are the split of the column |
| Questions.SaveLoadRoundTrip | Main.java:743-749 | loading the row written for a question gives the same question, apart from its id, which is whichever id the database assigned to the row; for storable options |
| Split.Join | Main.java:746-747 | a one-element list joins to its element; with no element holding the separator, the result holds a separator exactly when there are two or more elements |
| Split.Fields | Main.java:1028 | splitting at every separator gives at least one field, none holding the separator, and the whole string when there is no separator |
| Split.DropTrailingEmpty | Main.java:1028 | the result is a prefix of the list, ends in a non-empty string (or is empty), and only empty strings were removed |
| Split.JavaSplit | Main.java:1028 | no separator gives the string itself as the one element; otherwise no field holds the separator and the last field is non-empty |
| Split.FieldsAfterSeparator | Main.java:996 | the text before the first separator is the first field, followed by the fields of the rest |
| Split.FieldsOfJoin | Main.java:1028 | cutting a join at every separator recovers the list when no element holds the separator |
| Split.SplitJoinRoundTrip | Main.java:746-747 | split undoes join for a non-empty list without separators whose last element is non-empty or which has one element |
| Split.SplitDropsTrailingEmpty | Main.java:1028 | options "a","" come back as just "a", and "","" come back as no options at all |
| Split.FirstSplitField | Main.java:996 | the first element of the split is the non-empty text before the first separator |
| Decimal.NatToDigits | Main.java:982 | the decimal digits of a natural number are non-empty, all digits, and have that number as their value |
| Decimal.IntToString | Main.java:982 | the decimal form of an int is non-empty and contains no colon |
| Decimal.ParseInt | Main.java:996 | a parsed value is within the 32-bit range and comes from a non-empty string |
| Decimal.ParseIntToString | Main.java:982-996 | parseInt reads back every 32-bit value toString writes |
| Attempt.Scores | Main.java:1065 | each question's grade is that question's grade of its answer, and is at most 1 |
| Attempt.SumOfBits | Main.java:1059-1066 | a sum of zeros and ones is at most the number of terms, equals it exactly when every term is one, and is zero exactly when every term is zero |
| Attempt.TotalScore | Main.java:1058-1066 | the total of an attempt is between 0 and the number of questions |
| Attempt.FullMarksIffAllCorrect | Main.java:1058-1066 | the total equals the number of questions exactly when every answer scored 1, and is 0 exactly when every answer scored 0 |
| Attempt.QuizLabel | Main.java:982 | a quiz label is the id's decimal digits, then ": ", then the title |
| Attempt.QuizIdOfLabel | Main.java:996 | an id read from a label is within the 32-bit range |
| Attempt.QuizLabelRoundTrip | Main.java:982-996 | the id parsed from a quiz label is the id it was built from, whatever the title |
| Attempt.RowOf | Main.java:1069-1071 | the `student_answers` row written for a question carries its question id, the answer given and a score of at most 1 |
| Attempt.GradeAll | Main.java:1061-1071 | one answer row per question, in order, carrying the user, the quiz, the question id, the answer and its grade, and a total equal to the sum of the grades and at most the number of questions |
| Attempt.SubmitResponses | Main.java:1049-1083 | no selection writes nothing; a label without a readable quiz id gives UnreadableLabel, which stands for the exception parseInt (or the array index) throws uncaught at line 1057; otherwise the quiz id is the label's, with one graded answer row per question and the total of the grades |
| Auth.VerifyPassword | Main.java:292-294 | accepts the password's own digest; with a collision-free digest, refuses the digest of any other password |
| Auth.VerifyAcceptsOwnDigest | Main.java:292-294 | a password always verifies against its own digest |
| Auth.VerifyRejectsOtherDigest | Main.java:292-294 | with a collision-free digest, a password never verifies against the digest of a different password |
| Auth.Register | Main.java:213-224 | a taken username fails with UserAlreadyExists and changes nothing; otherwise exactly one user is added, holding the digest of the password, the name and the role, existing users and all sessions are untouched |
| Auth.Login | Main.java:227-247 | an unknown username fails with UserNotFound, a wrong password with InvalidPassword, both changing nothing; otherwise the token is returned and exactly one session is added for the user's id, expiring one hour (3600000 ms) after now, with users and other sessions untouched |
| Auth.JoinUser | Main.java:251-253 | the join finds a username holding the session's user id, and finds none exactly when no user has that id |
| Auth.Validate | Main.java:250-268 | no session or no joined user gives absent; a joined session whose expiry is after now gives a user; a joined session is expired exactly when its expiry is not after now; a returned user is the joined row's id, name, username and role with an empty password |
| Auth.Logout | Main.java:271-273 | exactly the session keyed by the token is removed; other sessions and the users are unchanged |
| AuthProperties.EmptyDbValid | Main.java:213-224 | empty tables satisfy the invariants (ids below the sequence, unique ids, every session owned) |
| AuthProperties.JoinFindsOwner | Main.java:251-253 | with unique user ids the join finds the one user holding the id |
| AuthProperties.RegisterPreservesValid | Main.java:213-224 | registration keeps user ids unique and every session owned by an existing user |
| AuthProperties.LoginPreservesValid | Main.java:227-247 | login keeps the invariants: the new session belongs to an existing user |
| AuthProperties.LogoutPreservesValid | Main.java:271-273 | logout keeps the invariants |
| AuthProperties.RegisterTwice | Main.java:216-219 | a first registration of a username succeeds and a second one fails with UserAlreadyExists, leaving the tables as they were |
| AuthProperties.LoginAfterRegister | Main.java:229-240 | logging in with the password just registered succeeds |
| AuthProperties.LoginThenValidate | Main.java:233-261 | until one hour after login the token resolves to the user who logged in, with an empty password |
| AuthProperties.LoginThenExpire | Main.java:236-263 | from one hour after login on the token is reported expired |
| AuthProperties.ExpiredStaysExpired | Main.java:256-263 | a token expired at one time is expired at every later time |
| AuthProperties.ValidAtEarlierTime | Main.java:256-261 | a token valid now gives the same user at every earlier time |
| AuthProperties.StoredTokenResolves | Main.java:250-266 | while the invariants hold, a token in the sessions table is never reported absent |
| AuthProperties.LogoutThenValidate | Main.java:271-273 | after logout the token is reported absent |
| AuthProperties.LogoutIdempotent | Main.java:271-273 | logging the same token out twice is the same as once |
| AuthProperties.LogoutKeepsOtherSessions | Main.java:271-273 | logging out one token does not change how any other token validates |
| AuthProperties.LoginKeepsOtherSessions | Main.java:227-247 | a login, successful or not, does not change how any other token validates |
| AuthProperties.RegisterKeepsSessions | Main.java:213-224 | registering a user does not change how any token validates |
| AuthProperties.TwoSessionsPerUser | Main.java:233-240 | two logins of one user give two tokens that both resolve to that user |
| AuthProperties.FailedLoginOpensNoSession | Main.java:241-246 | after a failed login the offered token is unknown |
| AuthProperties.RegisterLoginValidateLogout | Main.java:213-273 | register alice as a student, log in, the token resolves to alice with role student, log out, the token is unknown |

## Left out

- The MD5 digest and its hex formatting, and the `null` it returns if MD5 is unavailable: the digest is an arbitrary function `hash` passed in.
- The UUID token generator: the token is a parameter. Auth.Login requires that it does not already key a session, standing for the uniqueness of random UUIDs; what the store would do on a duplicate token depends on a schema that is not part of this model.
- `System.currentTimeMillis` and the `Timestamp` round trip through the database: `now` is an unbounded integer of milliseconds; 64-bit overflow, time zones and timestamp precision are not modelled.
- JDBC, SQL text, `SQLException` paths (a store that cannot be reached) and `System.exit` on a failed connection: I/O.
- Concurrency: the check-then-insert of a username in `registerUser` is not atomic in the code; the model is sequential.
- User ids: the database sequence is a counter in the model; gaps a real sequence may leave are not modelled, only that ids are fresh.
- Auth.JoinUser: picks some user holding the id when several do, as an SQL join read with a single `next()` does; only under unique ids is the result determined.
- IgnoreCase.EqualsIgnoreCase: case mapping covers the ASCII letters only, while Java maps all of Unicode; for non-ASCII letters the model may call two strings different that Java calls equal.
- Decimal.ParseInt: only ASCII digits are accepted; Java's `parseInt` also accepts digits of other scripts.
- Scores are `double` values 0.0 and 1.0 in the code and naturals here; sums of such values are exact in a double for any realistic number of questions.
- An answer is always a string: the `null` an empty multiple-choice combo box would give and the exception grading it would throw are not modelled. The combo box is empty whenever the joined options column is non-empty and consists only of `~` characters: two or more options that are all empty strings, or options made only of `~` such as the single option "~" (see Split.SplitDropsTrailingEmpty); a single empty option, or options of spaces, survive the round trip.
- Questions.SaveLoadRoundTrip: the question id is not part of the round trip; a question is saved with id 0 and read back with the id the database assigned.
- Auth.VerifyRejectsOtherDigest: holds only for a collision-free digest; MD5 has collisions, so two different passwords can verify against the same stored digest.
- The Swing windows (login, registration, quiz creation, quiz taking, response viewing), how answers are read from widgets, and the check that a student has not already answered a quiz: presentation.
- Quiz, question and response inserts and deletes other than the options column and the grading in `submitResponses`: pass-through database calls.
- The role is stored as given: `registerUser` accepts any role string and the registration window only ever passes "teacher" or "student"; there is no invalid-role error in the code, so none in the model.
- Login does not hash the password when the user is unknown and the comparison of digests is plain string equality; timing behaviour is outside the model.
