/** The regular expressions used by the e-mail pattern, and the language
    each one denotes. `Matches(r, s)` says that the WHOLE of `s` is in the
    language of `r`, which is what a full-string match
    (`java.util.regex.Matcher.matches`) decides; how an engine searches for
    a match is not described here. */
module Regex {

  /** One entry of a bracketed character class: a range `a-z` or a run of
      literal characters. */
  datatype ClassItem = Range(lo: char, hi: char) | Chars(cs: string)
  {
    predicate Has(c: char) {
      match this
      case Range(lo, hi) => lo <= c <= hi
      case Chars(cs) => c in cs
    }
  }

  /** `Lit(c)` is the character `c`, `Class(items)` the bracketed class
      `[items]`, `Concat(a, b)` is `ab`, `Opt(a)` is `a?`, `Star(a)` is `a*`
      and `Plus(a)` is `a+`; a non-capturing group `(?:a)` is `a` itself. */
  datatype Expr =
    | Lit(c: char)
    | Class(items: seq<ClassItem>)
    | Concat(left: Expr, right: Expr)
    | Opt(body: Expr)
    | Star(body: Expr)
    | Plus(body: Expr)

  predicate InClass(items: seq<ClassItem>, c: char) {
    exists i | 0 <= i < |items| :: items[i].Has(c)
  }

  /** Measure for the definition of Matches: `Plus(a)` unfolds to `Star(a)`,
      which must therefore be smaller. */
  function Size(r: Expr): nat {
    match r
    case Lit(_) => 1
    case Class(_) => 1
    case Concat(a, b) => Size(a) + Size(b) + 1
    case Opt(a) => Size(a) + 1
    case Star(a) => Size(a) + 1
    case Plus(a) => Size(a) + 2
  }

  /** The whole of `s` belongs to the language of `r`. A starred expression
      is cut into non-empty pieces, which denotes the same language as
      allowing empty ones. */
  predicate Matches(r: Expr, s: string)
    decreases Size(r), |s|
  {
    match r
    case Lit(c) => s == [c]
    case Class(items) => |s| == 1 && InClass(items, s[0])
    case Concat(a, b) => exists i | 0 <= i <= |s| :: Matches(a, s[..i]) && Matches(b, s[i..])
    case Opt(a) => s == [] || Matches(a, s)
    case Star(a) => s == [] || exists i | 1 <= i <= |s| :: Matches(a, s[..i]) && Matches(Star(a), s[i..])
    case Plus(a) => exists i | 0 <= i <= |s| :: Matches(a, s[..i]) && Matches(Star(a), s[i..])
  }

  /** Every character of `s` is in the class. */
  predicate AllIn(items: seq<ClassItem>, s: string) {
    forall k | 0 <= k < |s| :: InClass(items, s[k])
  }

  lemma ConcatIntro(a: Expr, b: Expr, x: string, y: string)
    requires Matches(a, x) && Matches(b, y)
    ensures Matches(Concat(a, b), x + y)
  {
    var s := x + y;
    assert s[..|x|] == x && s[|x|..] == y;
  }

  lemma ConcatElim(a: Expr, b: Expr, s: string) returns (x: string, y: string)
    requires Matches(Concat(a, b), s)
    ensures s == x + y && Matches(a, x) && Matches(b, y)
  {
    var i :| 0 <= i <= |s| && Matches(a, s[..i]) && Matches(b, s[i..]);
    x, y := s[..i], s[i..];
    assert s == x + y;
  }

  lemma StarIntro(a: Expr, x: string, y: string)
    requires x != [] && Matches(a, x) && Matches(Star(a), y)
    ensures Matches(Star(a), x + y)
  {
    var s := x + y;
    assert s[..|x|] == x && s[|x|..] == y;
  }

  lemma StarElim(a: Expr, s: string) returns (x: string, y: string)
    requires s != [] && Matches(Star(a), s)
    ensures x != [] && s == x + y && Matches(a, x) && Matches(Star(a), y)
    ensures |y| < |s|
  {
    var i :| 1 <= i <= |s| && Matches(a, s[..i]) && Matches(Star(a), s[i..]);
    x, y := s[..i], s[i..];
    assert s == x + y;
  }

  /** `a+` denotes the same language as `aa*`. */
  lemma PlusIsConcat(a: Expr, s: string)
    ensures Matches(Plus(a), s) <==> Matches(Concat(a, Star(a)), s)
  {
  }

  /** A starred class matches exactly the strings made of its characters. */
  lemma {:induction false} StarClass(items: seq<ClassItem>, s: string)
    ensures Matches(Star(Class(items)), s) <==> AllIn(items, s)
    decreases |s|
  {
    if s != [] {
      StarClass(items, s[1..]);
      if Matches(Star(Class(items)), s) {
        var x, y := StarElim(Class(items), s);
        assert |x| == 1 && y == s[1..] && x[0] == s[0];
        assert forall k | 1 <= k < |s| :: s[k] == y[k - 1];
      }
      if AllIn(items, s) {
        assert forall k | 0 <= k < |s[1..]| :: s[1..][k] == s[k + 1];
        assert Matches(Class(items), s[..1]);
        StarIntro(Class(items), s[..1], s[1..]);
        assert s[..1] + s[1..] == s;
      }
    }
  }

  /** A class with `+` matches exactly the non-empty strings made of its
      characters. */
  lemma PlusClass(items: seq<ClassItem>, s: string)
    ensures Matches(Plus(Class(items)), s) <==> s != [] && AllIn(items, s)
  {
    PlusIsConcat(Class(items), s);
    if Matches(Plus(Class(items)), s) {
      var x, y := ConcatElim(Class(items), Star(Class(items)), s);
      StarClass(items, y);
      assert forall k | 1 <= k < |s| :: s[k] == y[k - 1];
    }
    if s != [] && AllIn(items, s) {
      assert s[..1] + s[1..] == s;
      assert forall k | 0 <= k < |s[1..]| :: s[1..][k] == s[k + 1];
      StarClass(items, s[1..]);
      ConcatIntro(Class(items), Star(Class(items)), s[..1], s[1..]);
    }
  }

  /** `c*d` for two classes matches exactly the non-empty strings whose
      last character is in `d` and whose others are in `c`. */
  lemma StarClassThenClass(c: seq<ClassItem>, d: seq<ClassItem>, s: string)
    ensures Matches(Concat(Star(Class(c)), Class(d)), s)
        <==> s != [] && AllIn(c, s[..|s| - 1]) && InClass(d, s[|s| - 1])
  {
    if Matches(Concat(Star(Class(c)), Class(d)), s) {
      var x, y := ConcatElim(Star(Class(c)), Class(d), s);
      StarClass(c, x);
      assert x == s[..|s| - 1];
    }
    if s != [] && AllIn(c, s[..|s| - 1]) && InClass(d, s[|s| - 1]) {
      StarClass(c, s[..|s| - 1]);
      assert Matches(Class(d), s[|s| - 1..]);
      ConcatIntro(Star(Class(c)), Class(d), s[..|s| - 1], s[|s| - 1..]);
      assert s[..|s| - 1] + s[|s| - 1..] == s;
    }
  }

  /** Re-bracketing a concatenation, kept apart from the proofs about
      matching, where the solver finds it costly. */
  lemma AppendAssoc(a: string, b: string, c: string)
    ensures a + (b + c) == a + b + c
  {
  }

  // Shapes built from the constructs above: lists with separators, and a
  // character between two parts. They are stated for arbitrary
  // sub-expressions so that a proof about one pattern does not have to
  // look inside its parts.

  /** One item is `a(?:sa)*`. */
  lemma ItemsOne(a: Expr, sep: Expr, x: string)
    requires Matches(a, x)
    ensures Matches(Concat(a, Star(Concat(sep, a))), x)
  {
    assert Matches(Star(Concat(sep, a)), []);
    ConcatIntro(a, Star(Concat(sep, a)), x, []);
    assert x + [] == x;
  }

  /** An item, a non-empty separator and `a(?:sa)*` make `a(?:sa)*`. */
  lemma ItemsCons(a: Expr, sep: Expr, x: string, s: string, rest: string)
    requires Matches(a, x) && s != [] && Matches(sep, s)
    requires Matches(Concat(a, Star(Concat(sep, a))), rest)
    ensures Matches(Concat(a, Star(Concat(sep, a))), x + s + rest)
  {
    var w, y := ConcatElim(a, Star(Concat(sep, a)), rest);
    ConcatIntro(sep, a, s, w);
    StarIntro(Concat(sep, a), s + w, y);
    ConcatIntro(a, Star(Concat(sep, a)), x, s + w + y);
    AppendAssoc(s, w, y);
    AppendAssoc(x, s, w + y);
  }

  /** `a(?:sa)*`, for a separator that never matches the empty string, is
      one item, or an item, a separator and a shorter `a(?:sa)*`. */
  lemma ItemsElim(a: Expr, sep: Expr, u: string) returns (more: bool, x: string, s: string, rest: string)
    requires !Matches(sep, [])
    requires Matches(Concat(a, Star(Concat(sep, a))), u)
    ensures Matches(a, x)
    ensures !more ==> u == x
    ensures more ==> (u == x + s + rest && s != [] && Matches(sep, s) && |rest| < |u|
                      && Matches(Concat(a, Star(Concat(sep, a))), rest))
  {
    var y;
    x, y := ConcatElim(a, Star(Concat(sep, a)), u);
    more := y != [];
    s, rest := [], [];
    if more {
      var sw, y' := StarElim(Concat(sep, a), y);
      var w;
      s, w := ConcatElim(sep, a, sw);
      ConcatIntro(a, Star(Concat(sep, a)), w, y');
      rest := w + y';
      AppendAssoc(s, w, y');
      AppendAssoc(x, s, w + y');
    }
  }

  /** Only `q` is `p*q`. */
  lemma StarThenOne(p: Expr, q: Expr, y: string)
    requires Matches(q, y)
    ensures Matches(Concat(Star(p), q), y)
  {
    assert Matches(Star(p), []);
    ConcatIntro(Star(p), q, [], y);
    assert [] + y == y;
  }

  /** A non-empty `p` in front of `p*q` makes `p*q`. */
  lemma StarThenCons(p: Expr, q: Expr, x: string, rest: string)
    requires x != [] && Matches(p, x) && Matches(Concat(Star(p), q), rest)
    ensures Matches(Concat(Star(p), q), x + rest)
  {
    var ps, y := ConcatElim(Star(p), q, rest);
    StarIntro(p, x, ps);
    ConcatIntro(Star(p), q, x + ps, y);
    AppendAssoc(x, ps, y);
  }

  /** `p*q` is `q`, or a non-empty `p` followed by a shorter `p*q`. */
  lemma StarThenElim(p: Expr, q: Expr, v: string) returns (more: bool, x: string, rest: string)
    requires Matches(Concat(Star(p), q), v)
    ensures !more ==> Matches(q, v)
    ensures more ==> (v == x + rest && x != [] && Matches(p, x) && |rest| < |v|
                      && Matches(Concat(Star(p), q), rest))
  {
    var ps, y := ConcatElim(Star(p), q, v);
    more := ps != [];
    x, rest := [], [];
    if !more {
      assert v == y;
    } else {
      var ps';
      x, ps' := StarElim(p, ps);
      ConcatIntro(Star(p), q, ps', y);
      rest := ps' + y;
      AppendAssoc(x, ps', y);
    }
  }

  /** `p` followed by `p*q` makes `p+q`. */
  lemma PlusThenIntro(p: Expr, q: Expr, x: string, rest: string)
    requires Matches(p, x) && Matches(Concat(Star(p), q), rest)
    ensures Matches(Concat(Plus(p), q), x + rest)
  {
    var ps, y := ConcatElim(Star(p), q, rest);
    ConcatIntro(p, Star(p), x, ps);
    PlusIsConcat(p, x + ps);
    ConcatIntro(Plus(p), q, x + ps, y);
    AppendAssoc(x, ps, y);
  }

  /** `p+q` is `p` followed by `p*q`. */
  lemma PlusThenElim(p: Expr, q: Expr, d: string) returns (x: string, rest: string)
    requires Matches(Concat(Plus(p), q), d)
    ensures d == x + rest && Matches(p, x) && Matches(Concat(Star(p), q), rest)
  {
    var ps, y := ConcatElim(Plus(p), q, d);
    PlusIsConcat(p, ps);
    var ps';
    x, ps' := ConcatElim(p, Star(p), ps);
    ConcatIntro(Star(p), q, ps', y);
    rest := ps' + y;
    AppendAssoc(x, ps', y);
  }

  /** `a`, the character `c`, then `b`. */
  lemma AroundIntro(a: Expr, c: char, b: Expr, x: string, y: string)
    requires Matches(a, x) && Matches(b, y)
    ensures Matches(Concat(a, Concat(Lit(c), b)), x + [c] + y)
  {
    assert Matches(Lit(c), [c]);
    ConcatIntro(Lit(c), b, [c], y);
    ConcatIntro(a, Concat(Lit(c), b), x, [c] + y);
    AppendAssoc(x, [c], y);
  }

  lemma AroundElim(a: Expr, c: char, b: Expr, s: string) returns (x: string, y: string)
    requires Matches(Concat(a, Concat(Lit(c), b)), s)
    ensures s == x + [c] + y && Matches(a, x) && Matches(b, y)
  {
    var cy, lit;
    x, cy := ConcatElim(a, Concat(Lit(c), b), s);
    lit, y := ConcatElim(Lit(c), b, cy);
    assert lit == [c];
    AppendAssoc(x, [c], y);
  }
}
