# E-mail format constraint of the on-and-off sign-up form

This project models the `@EmailForm` constraint of the on-and-off member
module. The constraint is `EmailForm.EmailFormValidator.isValid` together with
the `REGEX_EMAIL` pattern it applies and the message it reports on failure.

The validator works as follows:
- It accepts a missing (`null`) or empty value outright.
- Any other value must match the pattern as a whole, as `Matcher.matches()`
  requires.

The pattern is a restricted, lower-case-only address syntax:
- The local part starts with a letter or digit. Its first dot-separated segment
  has two or more atom characters (`` a-z0-9!#$%&'*+/=?^_`{|}~- ``).
- A single `@` follows.
- The domain is one or more `label.` groups and then a final label of two or
  more characters. Every label starts and ends with a letter or digit and has
  hyphens only inside.

The model has five modules:

- `Strings`: cutting a string at a separator (`Split`), gluing it back
  (`Join`), and counting occurrences. `Split` and `Join` have both round-trip
  lemmas (`JoinSplit`, `SplitJoin`).
- `Regex`: a small regular-expression syntax, covering literals, character
  classes, concatenation, `?`, `*` and `+`. It has a denotational
  whole-string matching relation `Matches(r, s)`, which is the language of
  `r` and not a backtracking engine. It also has generic lemmas that take
  apart and build up matches of the shapes the address pattern uses.
- `EmailGrammar`: the structural reference definition of an accepted address.
  - `EmailOk(s)` holds when `s` splits as `l + "@" + d` with `LocalOk(l)` and
    `DomainOk(d)`.
  - Those two predicates are stated on the dot-separated segments of each
    part.
- `EmailPattern`: `REGEX_EMAIL` transcribed into the `Regex` syntax, piece by
  piece. It includes the theorem `EmailRegexIsEmailOk`: the pattern matches a
  whole string exactly when the string satisfies `EmailOk`.
- `EmailForm`: the validator itself (`IsValid`), the violation it produces
  (`Violation`, carrying the default message), and the structural
  consequences of acceptance. It ends with the concrete values used by the
  repository's tests.

A Java `String` parameter that may be `null` is modelled as
`Option<string>`; `None` stands for `null`. `StringUtils.isEmpty` is true for
`null` or `""`, and `IsValid` treats both alike.

A one-character local part is always rejected, because the first segment of
the local part needs two characters; `x@y.com`, for instance, is invalid
(`EmailForm.OneLetterLocalRejected`, `EmailForm.ShortLocalPartRejected`).

## Model

| member | source | states |
|---|---|---|
| EmailPattern.EmailRegex | src/main/java/site/onandoff/member/dto/EmailForm.java:30-33 | REGEX_EMAIL transcribed into the `Regex` syntax: `LocalPart` is line 30, `@` and `DomainPart` are line 33, and `AlnumClass`, `AtomClass` and `LabelClass` are its three character classes |
| EmailForm.DefaultMessage | src/main/java/site/onandoff/member/dto/EmailForm.java:23 | the constraint's default violation message, `이메일이 양식에 맞지 않습니다.` |
| Regex.Matches | src/main/java/site/onandoff/member/dto/EmailForm.java:43 | whole-string matching, as `Matcher.matches()` performs it: the entire value must be in the language of the expression, not a substring of it |
| EmailPattern.AtomRunIsSegment | src/main/java/site/onandoff/member/dto/EmailForm.java:30 | the atom-character class under `+` matches exactly a non-empty run of atom characters |
| EmailPattern.SegmentsAreSplit | src/main/java/site/onandoff/member/dto/EmailForm.java:30 | the atom run followed by `(?:\.atom+)*` matches exactly the strings whose dot-separated segments are all non-empty atom runs |
| EmailPattern.LocalPartIsLocalOk | src/main/java/site/onandoff/member/dto/EmailForm.java:30 | the local-part pattern matches exactly the strings that start with a letter or digit, have a first segment of two or more characters and all segments non-empty atom runs |
| EmailPattern.LabelTailIs | src/main/java/site/onandoff/member/dto/EmailForm.java:33 | `[a-z0-9-]*[a-z0-9]` matches exactly the non-empty runs of label characters ending in a letter or digit |
| EmailPattern.LastLabelIs | src/main/java/site/onandoff/member/dto/EmailForm.java:33 | the final label group matches exactly the labels of two or more characters, so a one-character top label is refused |
| EmailPattern.LabelDotIs | src/main/java/site/onandoff/member/dto/EmailForm.java:33 | `[a-z0-9](?:[a-z0-9-]*[a-z0-9])?\.` matches exactly a label followed by one dot |
| EmailPattern.MoreLabelsAreSplit | src/main/java/site/onandoff/member/dto/EmailForm.java:33 | zero or more `label.` then a final label match exactly the strings whose dot-separated labels are all labels, the last one at least two long |
| EmailPattern.DomainPartIsDomainOk | src/main/java/site/onandoff/member/dto/EmailForm.java:33 | the domain pattern matches exactly the strings with at least two labels, all labels, the last at least two long |
| EmailPattern.EmailRegexIsEmailOk | src/main/java/site/onandoff/member/dto/EmailForm.java:30-33 | REGEX_EMAIL matches a whole string if and only if the string is a well-formed local part, `@`, and a well-formed domain |
| EmailForm.IsValid | src/main/java/site/onandoff/member/dto/EmailForm.java:39-45 | an absent or empty value is valid, and any other value is valid exactly when it satisfies the structural address grammar |
| EmailForm.Violation | src/main/java/site/onandoff/member/dto/EmailForm.java:23 | a value yields a violation exactly when it is invalid, and the violation carries the constraint's default message |
| EmailForm.EmptyIsValid | src/main/java/site/onandoff/member/dto/EmailForm.java:40-41 | `null` and the empty string are valid and produce no violation |
| EmailForm.AcceptedParts | src/main/java/site/onandoff/member/dto/EmailForm.java:30-33 | an accepted non-empty value is a well-formed local part, `@` and a well-formed domain, neither of which holds `@` |
| EmailForm.PartsAccepted | src/main/java/site/onandoff/member/dto/EmailForm.java:30-33 | conversely, a well-formed local part and domain joined by `@` are accepted with no violation |
| EmailForm.AcceptedCut | src/main/java/site/onandoff/member/dto/EmailForm.java:30-33 | any `@` of an accepted value separates a well-formed local part from a well-formed domain |
| EmailForm.ExactlyOneAt | src/main/java/site/onandoff/member/dto/EmailForm.java:30-33 | an accepted non-empty value holds exactly one `@` |
| EmailForm.AcceptedLocalPart | src/main/java/site/onandoff/member/dto/EmailForm.java:30 | the local part of an accepted value starts with a letter or digit and has no `@`. Its first segment has two or more characters, and its dots sit only between non-empty segments: no leading, trailing or doubled dot |
| EmailForm.AcceptedDomain | src/main/java/site/onandoff/member/dto/EmailForm.java:33 | the domain of an accepted value has a dot, no `@`, and no leading, trailing or doubled dot. Every label starts and ends with a letter or digit, and the last label is at least two characters long |
| EmailForm.AcceptedChars | src/main/java/site/onandoff/member/dto/EmailForm.java:30-33 | every character of an accepted value is an atom character, `.` or `@` |
| EmailForm.ForeignCharRejected | src/main/java/site/onandoff/member/dto/EmailForm.java:30-33 | a value holding any character outside atom characters, `.` and `@` is invalid |
| EmailForm.UpperCaseRejected | src/main/java/site/onandoff/member/dto/EmailForm.java:30-33 | a value holding an upper-case ASCII letter is invalid |
| EmailForm.WhitespaceRejected | src/main/java/site/onandoff/member/dto/EmailForm.java:30-33 | a value holding a blank, tab or line break is invalid |
| EmailForm.PaddedRejected | src/main/java/site/onandoff/member/dto/EmailForm.java:43 | the match is of the whole value: a foreign character before or after any string makes it invalid |
| EmailForm.MinimumLength | src/main/java/site/onandoff/member/dto/EmailForm.java:30-33 | an accepted non-empty value is at least seven characters long |
| EmailForm.ShortLocalPartRejected | src/main/java/site/onandoff/member/dto/EmailForm.java:30 | a one-character local part is invalid whatever follows the `@` |
| EmailForm.SignUpAddressAccepted | src/test/java/site/onandoff/member/application/MemberServiceTest.java:38 | `ghkdgus29@naver.com`, the sign-up address of the service and controller tests, is valid |
| EmailForm.MissingDomainRejected | src/test/java/site/onandoff/member/presentation/MemberControllerTest.java:78 | `ghkdgus29@` is invalid and reported with `이메일이 양식에 맞지 않습니다.` |
| EmailForm.ShortTopLabelRejected | src/main/java/site/onandoff/member/dto/EmailForm.java:33 | `ab@b.c` is invalid, because its last label has one character |
| EmailForm.WholeValueMatched | src/main/java/site/onandoff/member/dto/EmailForm.java:43 | `ghkdgus29@naver.com` is valid, but not inside angle brackets, with a leading blank, or with an upper-case initial |
| EmailForm.OneLetterLocalRejected | src/main/java/site/onandoff/member/dto/EmailForm.java:30 | `x@y.com` is invalid |
| EmailGrammar.LocalDots | src/main/java/site/onandoff/member/dto/EmailForm.java:30 | a well-formed local part is at least two long, starts with a letter or digit, does not end with a dot and holds no doubled dot |
| EmailGrammar.DomainDots | src/main/java/site/onandoff/member/dto/EmailForm.java:33 | a well-formed domain holds a dot, neither starts nor ends with one, holds no doubled dot and is at least four long |
| EmailGrammar.NoAt | src/main/java/site/onandoff/member/dto/EmailForm.java:30-33 | neither a well-formed local part nor a well-formed domain holds `@` |
| Strings.JoinSplit | src/main/java/site/onandoff/member/dto/EmailForm.java:30 | joining the dot-separated segments gives the string back, so the segment view loses nothing |
| Strings.SplitJoin | src/main/java/site/onandoff/member/dto/EmailForm.java:30 | dot-free segments, joined and split again, come back unchanged |

## Left out

- Sign-up, nickname change and password change in `MemberService`: their source is not part of this model. The tests only reach them through a Spring context, a JPA repository and the BCrypt wrapper.
- BCrypt hashing and verification: a foreign cryptographic library.
- The `Member` entity and nickname uniqueness: annotation-only persistence declarations. Their uniqueness is a database constraint, and the check-then-act race around it is a concurrency concern.
- `ResponseMessage`: a constant table with no behaviour.
- The controller and REST-documentation tests: HTTP, JSON, mocking and documentation plumbing. Only their e-mail values are used, as concrete cases.
- The bean-validation wiring of the annotation: `@Constraint`, the `ConstraintValidatorContext` argument, groups and payload. Only the predicate and the default message are modelled, and `Violation` stands for the framework reporting that message.
- `Pattern` compilation and Java's backtracking matcher: the model states the language that REGEX_EMAIL denotes, and `Matches` is a relation rather than an algorithm. Termination, performance and stack depth of the Java engine are not modelled.
- Java strings are UTF-16 code units, while Dafny `char` is a Unicode scalar value. Every character the pattern admits is ASCII, so acceptance is unaffected; how surrogate pairs are presented to the matcher is not modelled.
