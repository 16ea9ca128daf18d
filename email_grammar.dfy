/** The shape of an e-mail address that the sign-up form accepts, stated
    structurally: a local part, one `@`, and a domain, each described by its
    dot-separated segments. Only lower-case ASCII letters are admitted. */
module EmailGrammar {
  import opened Strings

  predicate IsAlnum(c: char) {
    'a' <= c <= 'z' || '0' <= c <= '9'
  }

  /** The characters a local-part segment may hold. */
  predicate IsAtomChar(c: char) {
    IsAlnum(c) || c in "!#$%&'*+/=?^_`{|}~-"
  }

  /** The characters a domain label may hold. */
  predicate IsLabelChar(c: char) {
    IsAlnum(c) || c == '-'
  }

  /** A local-part segment: one or more atom characters. */
  predicate Segment(x: string) {
    x != [] && forall k | 0 <= k < |x| :: IsAtomChar(x[k])
  }

  /** A domain label: letters, digits and hyphens, beginning and ending
      with a letter or digit. */
  predicate Label(x: string) {
    && x != []
    && IsAlnum(x[0])
    && IsAlnum(x[|x| - 1])
    && forall k | 0 <= k < |x| :: IsLabelChar(x[k])
  }

  /** Every one of the segments is a local-part segment. */
  predicate SegmentsOk(segments: seq<string>) {
    forall i | 0 <= i < |segments| :: Segment(segments[i])
  }

  /** The part before `@`: dot-separated non-empty segments, starting with a
      letter or digit, the first segment at least two characters long. */
  predicate LocalOk(l: string) {
    var segments := Split(l, '.');
    && l != []
    && IsAlnum(l[0])
    && |segments[0]| >= 2
    && SegmentsOk(segments)
  }

  /** The domain's labels: every one a Label, the last at least two
      characters long. */
  predicate LabelsOk(labels: seq<string>)
    requires |labels| >= 1
  {
    && (forall i | 0 <= i < |labels| :: Label(labels[i]))
    && |labels[|labels| - 1]| >= 2
  }

  /** The part after `@`: at least two labels separated by dots. */
  predicate DomainOk(d: string) {
    var labels := Split(d, '.');
    |labels| >= 2 && LabelsOk(labels)
  }

  /** There is a split `l + "@" + d` with a well-formed local part and a
      well-formed domain. */
  predicate EmailOk(s: string) {
    exists k | 0 <= k < |s| :: s[k] == '@' && LocalOk(s[..k]) && DomainOk(s[k + 1..])
  }

  /** The characters of a well-formed local part are atom characters or dots. */
  lemma LocalChars(l: string)
    requires LocalOk(l)
    ensures forall k | 0 <= k < |l| :: l[k] == '.' || IsAtomChar(l[k])
  {
    SplitChars(l, '.', IsAtomChar);
  }

  /** The characters of a well-formed domain are label characters or dots. */
  lemma DomainChars(d: string)
    requires DomainOk(d)
    ensures forall k | 0 <= k < |d| :: d[k] == '.' || IsLabelChar(d[k])
  {
    SplitChars(d, '.', IsLabelChar);
  }

  /** Neither a well-formed local part nor a well-formed domain holds an
      `@`. */
  lemma NoAt(l: string, d: string)
    requires LocalOk(l) && DomainOk(d)
    ensures '@' !in l && '@' !in d
  {
    LocalChars(l);
    DomainChars(d);
    assert !IsAtomChar('@') && !IsLabelChar('@');
    assert forall k | 0 <= k < |l| :: l[k] != '@';
    assert forall k | 0 <= k < |d| :: d[k] != '@';
  }

  /** A single character is never a local part: the first segment needs
      two. */
  lemma OneCharNotLocal(c: char)
    ensures !LocalOk([c])
  {
    assert [c][1..] == [];
    assert Split([c][1..], '.') == [[]];
  }

  /** A well-formed local part begins with a letter or digit, and its dots
      all sit between two non-empty segments. */
  lemma LocalDots(l: string)
    requires LocalOk(l)
    ensures |l| >= 2 && IsAlnum(l[0]) && l[|l| - 1] != '.'
    ensures forall k | 0 <= k < |l| - 1 :: !(l[k] == '.' && l[k + 1] == '.')
  {
    NonEmptySegments(l, '.');
    JoinSplit(l, '.');
    var segments := Split(l, '.');
    if |segments| >= 2 {
      JoinLength(segments, '.');
    }
  }

  /** A well-formed domain holds a dot, neither starts nor ends with one,
      holds no two in a row, and is at least four characters long. */
  lemma DomainDots(d: string)
    requires DomainOk(d)
    ensures '.' in d && d[0] != '.' && d[|d| - 1] != '.'
    ensures forall k | 0 <= k < |d| - 1 :: !(d[k] == '.' && d[k + 1] == '.')
    ensures |d| >= 4
  {
    var labels := Split(d, '.');
    SplitManyIffSep(d, '.');
    NonEmptySegments(d, '.');
    JoinSplit(d, '.');
    JoinLength(labels, '.');
  }

  // Cutting the grammar at its first character or its first dot

  lemma SegmentHasNoDot(x: string)
    requires Segment(x)
    ensures '.' !in x
  {
    assert forall k | 0 <= k < |x| :: x[k] != '.';
  }

  lemma LabelHasNoDot(x: string)
    requires Label(x)
    ensures '.' !in x
  {
    assert forall k | 0 <= k < |x| :: x[k] != '.';
  }

  /** Without a dot, the segments are fine exactly when the whole string is
      one segment. */
  lemma SegmentsOkSingle(x: string)
    requires '.' !in x
    ensures SegmentsOk(Split(x, '.')) <==> Segment(x)
  {
    SplitNoSep(x, '.');
    assert Split(x, '.')[0] == x;
  }

  /** With a dot, the segments are fine exactly when the part before the
      first dot is a segment and the segments after it are fine. */
  lemma SegmentsOkCons(x: string, w: string)
    requires '.' !in x
    ensures SegmentsOk(Split(x + ['.'] + w, '.')) <==> Segment(x) && SegmentsOk(Split(w, '.'))
  {
    SplitAt(x, w, '.');
    var all, rest := Split(x + ['.'] + w, '.'), Split(w, '.');
    assert all[0] == x;
    assert forall i | 0 <= i < |rest| :: rest[i] == all[i + 1];
  }

  /** A list of segments is fine when its head and its tail are. */
  lemma SegmentsOkHead(first: string, rest: seq<string>)
    ensures SegmentsOk([first] + rest) <==> Segment(first) && SegmentsOk(rest)
  {
    var all := [first] + rest;
    assert all[0] == first;
    assert forall i | 0 <= i < |rest| :: rest[i] == all[i + 1];
  }

  /** An atom character in front of a string makes a segment of two or more
      characters exactly when the string is a segment. */
  lemma SegmentCons(c: char, x: string)
    requires IsAtomChar(c)
    ensures Segment([c] + x) && |[c] + x| >= 2 <==> Segment(x)
  {
    var y := [c] + x;
    assert forall k | 0 <= k < |x| :: x[k] == y[k + 1];
    assert forall k | 1 <= k < |y| :: y[k] == x[k - 1];
  }

  /** A local part is a letter or digit followed by fine segments. */
  lemma LocalOkCons(c: char, u: string)
    ensures LocalOk([c] + u) <==> IsAlnum(c) && SegmentsOk(Split(u, '.'))
  {
    assert ([c] + u)[0] == c;
    if IsAlnum(c) {
      SplitCons(c, u, '.');
      var segsU := Split(u, '.');
      SegmentsOkHead([c] + segsU[0], segsU[1..]);
      SegmentsOkHead(segsU[0], segsU[1..]);
      assert [segsU[0]] + segsU[1..] == segsU;
      SegmentCons(c, segsU[0]);
    }
  }

  /** Without a dot, the labels are fine exactly when the whole string is
      a label of two or more characters. */
  lemma LabelsOkSingle(x: string)
    requires '.' !in x
    ensures LabelsOk(Split(x, '.')) <==> Label(x) && |x| >= 2
  {
    SplitNoSep(x, '.');
  }

  /** A list of labels is fine when its head is a label and its tail is
      fine. */
  lemma LabelsOkHead(first: string, rest: seq<string>)
    requires |rest| >= 1
    ensures LabelsOk([first] + rest) <==> Label(first) && LabelsOk(rest)
  {
    var all := [first] + rest;
    assert all[0] == first && all[|all| - 1] == rest[|rest| - 1];
    assert forall i | 0 <= i < |rest| :: rest[i] == all[i + 1];
    assert forall i | 1 <= i < |all| :: all[i] == rest[i - 1];
  }

  /** A domain is a label, a dot, and fine labels after it. */
  lemma DomainOkCons(lab: string, w: string)
    requires '.' !in lab
    ensures DomainOk(lab + ['.'] + w) <==> Label(lab) && LabelsOk(Split(w, '.'))
  {
    SplitAt(lab, w, '.');
    LabelsOkHead(lab, Split(w, '.'));
  }

  /** With a dot, the labels are fine exactly when the string is a domain. */
  lemma LabelsOkWithDot(v: string)
    requires '.' in v
    ensures LabelsOk(Split(v, '.')) <==> DomainOk(v)
  {
    SplitManyIffSep(v, '.');
  }

  /** The address made of a local part, `@` and a domain. */
  lemma EmailOkIntro(l: string, d: string)
    requires LocalOk(l) && DomainOk(d)
    ensures EmailOk(l + ['@'] + d)
  {
    var s := l + ['@'] + d;
    assert s[|l|] == '@' && s[..|l|] == l && s[|l| + 1..] == d;
  }

  /** A well-formed address cut at its `@`. */
  lemma EmailOkElim(s: string) returns (l: string, d: string)
    requires EmailOk(s)
    ensures s == l + ['@'] + d && LocalOk(l) && DomainOk(d)
  {
    var k :| 0 <= k < |s| && s[k] == '@' && LocalOk(s[..k]) && DomainOk(s[k + 1..]);
    l, d := s[..k], s[k + 1..];
    CutAt(s, k);
  }
}
