/** The pattern REGEX_EMAIL of the sign-up form's e-mail validator, written
    out as a regular expression, and the proof that the strings it matches
    in full are exactly the well-formed addresses of EmailGrammar. */
module EmailPattern {
  import opened Strings
  import opened Regex
  import opened EmailGrammar

  /** `[a-z0-9]` */
  const AlnumClass: seq<ClassItem> := [Range('a', 'z'), Range('0', '9')]
  /** ``[a-z0-9!#$%&'*+/=?^_`{|}~-]`` */
  const AtomClass: seq<ClassItem> := [Range('a', 'z'), Range('0', '9'), Chars("!#$%&'*+/=?^_`{|}~-")]
  /** `[a-z0-9-]` */
  const LabelClass: seq<ClassItem> := [Range('a', 'z'), Range('0', '9'), Chars("-")]

  /** `[atom]+` */
  const AtomRun: Expr := Plus(Class(AtomClass))
  /** `\.[atom]+` */
  const DotSegment: Expr := Concat(Lit('.'), AtomRun)
  /** `[atom]+(?:\.[atom]+)*`: what follows the first character of the
      local part. */
  const Segments: Expr := Concat(AtomRun, Star(DotSegment))
  /** `[a-z0-9][atom]+(?:\.[atom]+)*` */
  const LocalPart: Expr := Concat(Class(AlnumClass), Segments)

  /** `[a-z0-9-]*[a-z0-9]` */
  const LabelTail: Expr := Concat(Star(Class(LabelClass)), Class(AlnumClass))
  /** `[a-z0-9](?:[a-z0-9-]*[a-z0-9])?\.` */
  const LabelDot: Expr := Concat(Class(AlnumClass), Concat(Opt(LabelTail), Lit('.')))
  /** `[a-z0-9](?:[a-z0-9-]*[a-z0-9])`: the last label, whose inner group
      is not optional. */
  const LastLabel: Expr := Concat(Class(AlnumClass), LabelTail)
  /** `(?:[a-z0-9](?:[a-z0-9-]*[a-z0-9])?\.)+[a-z0-9](?:[a-z0-9-]*[a-z0-9])` */
  const DomainPart: Expr := Concat(Plus(LabelDot), LastLabel)

  /** REGEX_EMAIL: local part, `@`, domain. */
  const EmailRegex: Expr := Concat(LocalPart, Concat(Lit('@'), DomainPart))

  // Character classes

  lemma AlnumClassIs(c: char)
    ensures InClass(AlnumClass, c) <==> IsAlnum(c)
  {
    if IsAlnum(c) {
      if 'a' <= c <= 'z' { assert AlnumClass[0].Has(c); } else { assert AlnumClass[1].Has(c); }
    }
  }

  lemma AtomClassIs(c: char)
    ensures InClass(AtomClass, c) <==> IsAtomChar(c)
  {
    if IsAtomChar(c) {
      if 'a' <= c <= 'z' { assert AtomClass[0].Has(c); }
      else if '0' <= c <= '9' { assert AtomClass[1].Has(c); }
      else { assert AtomClass[2].Has(c); }
    }
  }

  lemma LabelClassIs(c: char)
    ensures InClass(LabelClass, c) <==> IsLabelChar(c)
  {
    if IsLabelChar(c) {
      if 'a' <= c <= 'z' { assert LabelClass[0].Has(c); }
      else if '0' <= c <= '9' { assert LabelClass[1].Has(c); }
      else { assert LabelClass[2].Has(c); }
    }
  }

  // The local part

  /** `[atom]+` matches exactly the local-part segments. */
  lemma AtomRunIsSegment(x: string)
    ensures Matches(AtomRun, x) <==> Segment(x)
  {
    PlusClass(AtomClass, x);
    forall k | 0 <= k < |x| { AtomClassIs(x[k]); }
  }

  lemma {:induction false} SegmentsElim(u: string)
    requires Matches(Segments, u)
    ensures SegmentsOk(Split(u, '.'))
    decreases |u|
  {
    var more, x, dot, rest := ItemsElim(AtomRun, Lit('.'), u);
    AtomRunIsSegment(x);
    SegmentHasNoDot(x);
    if !more {
      SegmentsOkSingle(x);
    } else {
      assert dot == ['.'];
      SegmentsElim(rest);
      SegmentsOkCons(x, rest);
    }
  }

  lemma {:induction false} SegmentsIntro(u: string)
    requires SegmentsOk(Split(u, '.'))
    ensures Matches(Segments, u)
    decreases |u|
  {
    if '.' !in u {
      SegmentsOkSingle(u);
      AtomRunIsSegment(u);
      ItemsOne(AtomRun, Lit('.'), u);
    } else {
      var x, rest := CutAtFirst(u, '.');
      SegmentsOkCons(x, rest);
      SegmentsIntro(rest);
      AtomRunIsSegment(x);
      assert Matches(Lit('.'), ['.']);
      ItemsCons(AtomRun, Lit('.'), x, ['.'], rest);
    }
  }

  /** `[atom]+(?:\.[atom]+)*` matches exactly the strings whose
      dot-separated segments are all non-empty runs of atom characters. */
  lemma SegmentsAreSplit(u: string)
    ensures Matches(Segments, u) <==> SegmentsOk(Split(u, '.'))
  {
    if Matches(Segments, u) { SegmentsElim(u); }
    if SegmentsOk(Split(u, '.')) { SegmentsIntro(u); }
  }

  /** The local-part expression matches exactly the well-formed local parts. */
  lemma LocalPartIsLocalOk(l: string)
    ensures Matches(LocalPart, l) <==> LocalOk(l)
  {
    if Matches(LocalPart, l) {
      var c, u := ConcatElim(Class(AlnumClass), Segments, l);
      assert c == [c[0]];
      AlnumClassIs(c[0]);
      SegmentsElim(u);
      LocalOkCons(c[0], u);
    }
    if LocalOk(l) {
      HeadTail(l);
      LocalOkCons(l[0], l[1..]);
      SegmentsIntro(l[1..]);
      AlnumClassIs(l[0]);
      assert Matches(Class(AlnumClass), [l[0]]);
      ConcatIntro(Class(AlnumClass), Segments, [l[0]], l[1..]);
    }
  }

  // The domain

  /** `[a-z0-9-]*[a-z0-9]` matches exactly the non-empty runs of label
      characters that end in a letter or digit. */
  lemma LabelTailIs(y: string)
    ensures Matches(LabelTail, y)
        <==> y != [] && IsAlnum(y[|y| - 1]) && forall k | 0 <= k < |y| :: IsLabelChar(y[k])
  {
    StarClassThenClass(LabelClass, AlnumClass, y);
    if y != [] {
      var init := y[..|y| - 1];
      AlnumClassIs(y[|y| - 1]);
      forall k | 0 <= k < |init| { LabelClassIs(init[k]); }
    }
  }

  /** A label of two or more characters is a letter or digit followed by
      a label tail. */
  lemma LabelConsTail(c: char, y: string)
    requires y != []
    ensures Label([c] + y)
        <==> IsAlnum(c) && IsAlnum(y[|y| - 1]) && forall k | 0 <= k < |y| :: IsLabelChar(y[k])
  {
    var x := [c] + y;
    assert forall k | 0 <= k < |y| :: y[k] == x[k + 1];
    assert forall k | 1 <= k < |x| :: x[k] == y[k - 1];
  }

  /** The last-label expression matches exactly the labels of two or more
      characters. */
  lemma LastLabelIs(x: string)
    ensures Matches(LastLabel, x) <==> Label(x) && |x| >= 2
  {
    if Matches(LastLabel, x) {
      var c, y := ConcatElim(Class(AlnumClass), LabelTail, x);
      assert c == [c[0]];
      AlnumClassIs(c[0]);
      LabelTailIs(y);
      LabelConsTail(c[0], y);
    }
    if Label(x) && |x| >= 2 {
      HeadTail(x);
      LabelConsTail(x[0], x[1..]);
      LabelTailIs(x[1..]);
      AlnumClassIs(x[0]);
      assert Matches(Class(AlnumClass), [x[0]]);
      ConcatIntro(Class(AlnumClass), LabelTail, [x[0]], x[1..]);
    }
  }

  /** A letter or digit, optionally a label tail, and a dot make a label
      followed by a dot. */
  lemma LabelDotPieces(c: string, o: string, dot: string)
    requires Matches(Class(AlnumClass), c) && Matches(Opt(LabelTail), o) && Matches(Lit('.'), dot)
    ensures Label(c + o) && dot == ['.']
  {
    assert c == [c[0]];
    AlnumClassIs(c[0]);
    if o == [] {
      assert c + o == [c[0]];
    } else {
      LabelTailIs(o);
      LabelConsTail(c[0], o);
    }
  }

  lemma LabelDotElim(x: string) returns (lab: string)
    requires Matches(LabelDot, x)
    ensures x == lab + ['.'] && Label(lab)
  {
    var c, rest := ConcatElim(Class(AlnumClass), Concat(Opt(LabelTail), Lit('.')), x);
    var o, dot := ConcatElim(Opt(LabelTail), Lit('.'), rest);
    LabelDotPieces(c, o, dot);
    lab := c + o;
    AppendAssoc(c, o, dot);
  }

  lemma LabelDotIntro(lab: string)
    requires Label(lab)
    ensures Matches(LabelDot, lab + ['.'])
  {
    var c, o := lab[0], lab[1..];
    HeadTail(lab);
    if o != [] {
      LabelConsTail(c, o);
      LabelTailIs(o);
    }
    assert Matches(Opt(LabelTail), o);
    assert Matches(Lit('.'), ['.']);
    ConcatIntro(Opt(LabelTail), Lit('.'), o, ['.']);
    AlnumClassIs(c);
    assert Matches(Class(AlnumClass), [c]);
    ConcatIntro(Class(AlnumClass), Concat(Opt(LabelTail), Lit('.')), [c], o + ['.']);
    AppendAssoc([c], o, ['.']);
  }

  /** `[a-z0-9](?:[a-z0-9-]*[a-z0-9])?\.` matches exactly a label followed
      by a dot. */
  lemma LabelDotIs(x: string)
    ensures Matches(LabelDot, x) <==> x != [] && x[|x| - 1] == '.' && Label(x[..|x| - 1])
  {
    if Matches(LabelDot, x) {
      var lab := LabelDotElim(x);
      assert x[..|x| - 1] == lab;
    }
    if x != [] && x[|x| - 1] == '.' && Label(x[..|x| - 1]) {
      LabelDotIntro(x[..|x| - 1]);
      assert x[..|x| - 1] + ['.'] == x;
    }
  }

  /** What follows the first `label.` of a domain: `(?:label\.)*` and the
      last label. */
  const MoreLabels: Expr := Concat(Star(LabelDot), LastLabel)

  lemma {:induction false} MoreLabelsElim(v: string)
    requires Matches(MoreLabels, v)
    ensures LabelsOk(Split(v, '.'))
    decreases |v|
  {
    var more, x, rest := StarThenElim(LabelDot, LastLabel, v);
    if !more {
      LastLabelIs(v);
      LabelHasNoDot(v);
      LabelsOkSingle(v);
    } else {
      var lab := LabelDotElim(x);
      LabelHasNoDot(lab);
      MoreLabelsElim(rest);
      DomainOkCons(lab, rest);
    }
  }

  lemma {:induction false} MoreLabelsIntro(v: string)
    requires LabelsOk(Split(v, '.'))
    ensures Matches(MoreLabels, v)
    decreases |v|
  {
    if '.' !in v {
      LabelsOkSingle(v);
      LastLabelIs(v);
      StarThenOne(LabelDot, LastLabel, v);
    } else {
      var lab, rest := CutAtFirst(v, '.');
      LabelsOkWithDot(v);
      DomainOkCons(lab, rest);
      MoreLabelsIntro(rest);
      LabelDotIntro(lab);
      StarThenCons(LabelDot, LastLabel, lab + ['.'], rest);
    }
  }

  /** `(?:label\.)*` followed by the last label matches exactly the strings
      whose dot-separated labels are all well formed, the last one at least
      two characters long. */
  lemma MoreLabelsAreSplit(v: string)
    ensures Matches(MoreLabels, v) <==> LabelsOk(Split(v, '.'))
  {
    if Matches(MoreLabels, v) { MoreLabelsElim(v); }
    if LabelsOk(Split(v, '.')) { MoreLabelsIntro(v); }
  }

  lemma DomainPartElim(d: string)
    requires Matches(DomainPart, d)
    ensures DomainOk(d)
  {
    var x, rest := PlusThenElim(LabelDot, LastLabel, d);
    var lab := LabelDotElim(x);
    LabelHasNoDot(lab);
    MoreLabelsElim(rest);
    DomainOkCons(lab, rest);
  }

  lemma DomainPartIntro(d: string)
    requires DomainOk(d)
    ensures Matches(DomainPart, d)
  {
    SplitManyIffSep(d, '.');
    var lab, rest := CutAtFirst(d, '.');
    DomainOkCons(lab, rest);
    MoreLabelsIntro(rest);
    LabelDotIntro(lab);
    PlusThenIntro(LabelDot, LastLabel, lab + ['.'], rest);
  }

  /** The domain expression matches exactly the well-formed domains. */
  lemma DomainPartIsDomainOk(d: string)
    ensures Matches(DomainPart, d) <==> DomainOk(d)
  {
    if Matches(DomainPart, d) { DomainPartElim(d); }
    if DomainOk(d) { DomainPartIntro(d); }
  }

  // The whole address

  /** REGEX_EMAIL matches a whole string exactly when the string is a
      well-formed address. */
  lemma EmailRegexIsEmailOk(s: string)
    ensures Matches(EmailRegex, s) <==> EmailOk(s)
  {
    if Matches(EmailRegex, s) {
      var l, d := AroundElim(LocalPart, '@', DomainPart, s);
      LocalPartIsLocalOk(l);
      DomainPartElim(d);
      EmailOkIntro(l, d);
    }
    if EmailOk(s) {
      var l, d := EmailOkElim(s);
      LocalPartIsLocalOk(l);
      DomainPartIntro(d);
      AroundIntro(LocalPart, '@', DomainPart, l, d);
    }
  }
}
