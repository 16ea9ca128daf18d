/** The sign-up form's e-mail constraint: a missing or empty value passes,
    any other value passes exactly when the whole of it matches REGEX_EMAIL.
    A value that fails is reported with the constraint's default message. */
module EmailForm {
  import opened Strings
  import opened Regex
  import opened EmailGrammar
  import opened EmailPattern

  /** A form field that may be absent (a Java `null`). */
  datatype Option<T> = None | Some(value: T)

  /** The message of a violation of the constraint. */
  const DefaultMessage: string := "이메일이 양식에 맞지 않습니다."

  /** The validator: absent and empty values are accepted; otherwise the
      value must match the address pattern from its first character to its
      last, so the answer is exactly the structural grammar. */
  function IsValid(input: Option<string>): (r: bool)
    ensures r <==> (input.None? || input.value == [] || EmailOk(input.value))
  {
    match input
    case None => true
    case Some(s) => s == [] || (EmailRegexIsEmailOk(s); Matches(EmailRegex, s))
  }

  /** The violation the form reports for a value: none when the value is
      accepted, the default message when it is not. */
  function Violation(input: Option<string>): (m: Option<string>)
    ensures m.None? <==> IsValid(input)
    ensures m.Some? ==> m.value == DefaultMessage
  {
    if IsValid(input) then None else Some(DefaultMessage)
  }

  /** A value that is absent or empty is always valid. */
  lemma EmptyIsValid(input: Option<string>)
    requires input.None? || input.value == []
    ensures IsValid(input) && Violation(input).None?
  {
  }

  /** An accepted non-empty value is a local part, one `@` and a domain; the
      `@` appears in neither part, so the cut is the only one. */
  lemma AcceptedParts(s: string) returns (l: string, d: string)
    requires s != [] && IsValid(Some(s))
    ensures s == l + ['@'] + d && LocalOk(l) && DomainOk(d)
    ensures '@' !in l && '@' !in d
  {
    l, d := EmailOkElim(s);
    NoAt(l, d);
  }

  /** Every accepted non-empty value holds exactly one `@`. */
  lemma ExactlyOneAt(s: string)
    requires s != [] && IsValid(Some(s))
    ensures Count(s, '@') == 1
  {
    var l, d := AcceptedParts(s);
    CountConcat(l + ['@'], d, '@');
    CountConcat(l, ['@'], '@');
    CountAbsent(l, '@');
    CountAbsent(d, '@');
    assert Count(['@'], '@') == 1 by { assert ['@'][1..] == []; }
  }

  /** The local part of an accepted value begins with a lower-case letter
      or digit, has a first segment of two or more characters, and uses dots
      only between non-empty segments. */
  lemma AcceptedLocalPart(s: string) returns (l: string)
    requires s != [] && IsValid(Some(s))
    ensures exists d :: s == l + ['@'] + d
    ensures '@' !in l && |l| >= 2 && IsAlnum(l[0]) && |Split(l, '.')[0]| >= 2
    ensures forall i | 0 <= i < |Split(l, '.')| :: Split(l, '.')[i] != []
    ensures l[|l| - 1] != '.'
    ensures forall k | 0 <= k < |l| - 1 :: !(l[k] == '.' && l[k + 1] == '.')
  {
    var d;
    l, d := AcceptedParts(s);
    LocalDots(l);
  }

  /** The domain of an accepted value holds a dot, neither begins nor ends
      with one, and every label begins and ends with a lower-case letter or
      digit with hyphens only inside; the last label has two or more
      characters. */
  lemma AcceptedDomain(s: string) returns (d: string)
    requires s != [] && IsValid(Some(s))
    ensures exists l :: s == l + ['@'] + d
    ensures '@' !in d && '.' in d && d[0] != '.' && d[|d| - 1] != '.'
    ensures forall k | 0 <= k < |d| - 1 :: !(d[k] == '.' && d[k + 1] == '.')
    ensures forall i | 0 <= i < |Split(d, '.')| :: Label(Split(d, '.')[i])
    ensures |Split(d, '.')[|Split(d, '.')| - 1]| >= 2
  {
    var l;
    l, d := AcceptedParts(s);
    DomainDots(d);
  }

  /** Conversely, any well-formed local part and domain joined by `@` are
      accepted. */
  lemma PartsAccepted(l: string, d: string)
    requires LocalOk(l) && DomainOk(d)
    ensures IsValid(Some(l + ['@'] + d)) && Violation(Some(l + ['@'] + d)).None?
  {
    EmailOkIntro(l, d);
  }

  /** The characters an accepted value may hold: atom characters, dots and
      the `@`. */
  predicate Admitted(c: char) {
    IsAtomChar(c) || c == '.' || c == '@'
  }

  /** Every character of an accepted value is admitted. */
  lemma AcceptedChars(s: string)
    requires s != [] && IsValid(Some(s))
    ensures forall k | 0 <= k < |s| :: Admitted(s[k])
  {
    var l, d := AcceptedParts(s);
    LocalChars(l);
    DomainChars(d);
    forall k | 0 <= k < |s| ensures Admitted(s[k]) {
      if k < |l| {
        assert s[k] == l[k];
      } else if k > |l| {
        assert s[k] == d[k - |l| - 1];
      }
    }
  }

  /** One character outside the admitted set, anywhere in a value, makes
      the value invalid. */
  lemma ForeignCharRejected(s: string, k: int)
    requires 0 <= k < |s| && !Admitted(s[k])
    ensures !IsValid(Some(s))
  {
    if IsValid(Some(s)) {
      AcceptedChars(s);
    }
  }

  lemma UpperNotAdmitted(c: char)
    requires 'A' <= c <= 'Z'
    ensures !Admitted(c)
  {
  }

  /** Upper-case letters are outside the admitted set. */
  lemma UpperCaseRejected(s: string, k: int)
    requires 0 <= k < |s| && 'A' <= s[k] <= 'Z'
    ensures !IsValid(Some(s))
  {
    UpperNotAdmitted(s[k]);
    ForeignCharRejected(s, k);
  }

  lemma BlankNotAdmitted(c: char)
    requires c in " \t\r\n"
    ensures !Admitted(c)
  {
  }

  /** So are blanks, tabs and line breaks. */
  lemma WhitespaceRejected(s: string, k: int)
    requires 0 <= k < |s| && s[k] in " \t\r\n"
    ensures !IsValid(Some(s))
  {
    BlankNotAdmitted(s[k]);
    ForeignCharRejected(s, k);
  }

  /** The match is of the whole value: a non-admitted character before or
      after an accepted address makes it invalid. */
  lemma PaddedRejected(s: string, c: char)
    requires !Admitted(c)
    ensures !IsValid(Some([c] + s)) && !IsValid(Some(s + [c]))
  {
    ForeignCharRejected([c] + s, 0);
    ForeignCharRejected(s + [c], |s|);
  }

  /** Every accepted non-empty value is at least seven characters long:
      two for the local part, the `@`, a label and its dot, and a last label
      of two. */
  lemma MinimumLength(s: string)
    requires s != [] && IsValid(Some(s))
    ensures |s| >= 7
  {
    var l, d := AcceptedParts(s);
    LocalDots(l);
    DomainDots(d);
  }

  /** Any `@` of an accepted value is the one between its local part and
      its domain. */
  lemma AcceptedCut(s: string, i: int)
    requires s != [] && IsValid(Some(s)) && 0 <= i < |s| && s[i] == '@'
    ensures LocalOk(s[..i]) && DomainOk(s[i + 1..])
  {
    var l, d := AcceptedParts(s);
    assert i == |l|;
    assert s[..|l|] == l && s[|l| + 1..] == d;
  }

  /** A local part of one character is too short: its first segment needs
      two. */
  lemma ShortLocalPartRejected(c: char, d: string)
    ensures !IsValid(Some([c] + ['@'] + d))
  {
    var s := [c] + ['@'] + d;
    assert s[1] == '@' && s[..1] == [c];
    OneCharNotLocal(c);
    if IsValid(Some(s)) {
      AcceptedCut(s, 1);
    }
  }

  // Concrete values

  lemma SignUpPieces()
    ensures '.' !in "ghkdgus29" && Segment("ghkdgus29")
    ensures '.' !in "naver" && '.' !in "com" && Label("naver") && Label("com")
    ensures "naver" + ['.'] + "com" == "naver.com"
    ensures "ghkdgus29" + ['@'] + "naver.com" == "ghkdgus29@naver.com"
  {
  }

  lemma SignUpLocalPart()
    ensures LocalOk("ghkdgus29")
  {
    SignUpPieces();
    SplitNoSep("ghkdgus29", '.');
  }

  lemma SignUpLabels()
    ensures DomainOk("naver" + ['.'] + "com")
  {
    SignUpPieces();
    SplitNoSep("com", '.');
    SplitAt("naver", "com", '.');
  }

  lemma SignUpDomain()
    ensures DomainOk("naver.com")
  {
    SignUpLabels();
    SignUpPieces();
  }

  /** An address used when signing up is accepted. */
  lemma SignUpAddressAccepted()
    ensures IsValid(Some("ghkdgus29@naver.com"))
    ensures Violation(Some("ghkdgus29@naver.com")) == None
  {
    SignUpLocalPart();
    SignUpDomain();
    SignUpPieces();
    PartsAccepted("ghkdgus29", "naver.com");
  }

  lemma MissingDomainPieces()
    ensures "ghkdgus29@"[9] == '@' && "ghkdgus29@"[10..] == []
  {
  }

  /** An address without a domain is rejected, with the default message. */
  lemma MissingDomainRejected()
    ensures !IsValid(Some("ghkdgus29@"))
    ensures Violation(Some("ghkdgus29@")) == Some(DefaultMessage)
  {
    MissingDomainPieces();
    if IsValid(Some("ghkdgus29@")) {
      AcceptedCut("ghkdgus29@", 9);
    }
  }

  lemma ShortTopLabelPieces()
    ensures "ab@b.c"[2] == '@' && "ab@b.c"[3..] == "b" + ['.'] + "c"
    ensures '.' !in "b" && '.' !in "c" && |"c"| == 1
  {
  }

  /** A last label of one character is rejected. */
  lemma ShortTopLabelRejected()
    ensures !IsValid(Some("ab@b.c"))
  {
    ShortTopLabelPieces();
    DomainOkCons("b", "c");
    LabelsOkSingle("c");
    if IsValid(Some("ab@b.c")) {
      AcceptedCut("ab@b.c", 2);
    }
  }

  lemma PaddedPieces()
    ensures "<ghkdgus29@naver.com>"[0] == '<' && " ghkdgus29@naver.com"[0] == ' '
    ensures "Ghkdgus29@naver.com"[0] == 'G'
    ensures !Admitted('<') && !Admitted(' ')
  {
  }

  /** The whole value must match: an accepted address inside angle brackets,
      or with a leading blank or an upper-case initial, is rejected. */
  lemma WholeValueMatched()
    ensures IsValid(Some("ghkdgus29@naver.com"))
    ensures !IsValid(Some("<ghkdgus29@naver.com>"))
    ensures !IsValid(Some(" ghkdgus29@naver.com"))
    ensures !IsValid(Some("Ghkdgus29@naver.com"))
  {
    SignUpAddressAccepted();
    PaddedPieces();
    ForeignCharRejected("<ghkdgus29@naver.com>", 0);
    ForeignCharRejected(" ghkdgus29@naver.com", 0);
    UpperCaseRejected("Ghkdgus29@naver.com", 0);
  }

  lemma OneLetterPieces()
    ensures "x@y.com" == ['x'] + ['@'] + "y.com"
  {
  }

  /** `x@y.com` is rejected: its local part has a single character. */
  lemma OneLetterLocalRejected()
    ensures !IsValid(Some("x@y.com"))
  {
    OneLetterPieces();
    ShortLocalPartRejected('x', "y.com");
  }
}
